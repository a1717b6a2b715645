/** The strings that expect_string of src/c7json/lexer.cpp reads, against section 7 of RFC 8259. */
module JsonStrings {
  import opened JsonLex
  import JsonNumbers

  /** A character as it is, an escape of one letter, or one of four hexadecimal digits. */
  datatype Piece = Plain(c: char) | Letter(c: char) | Code(hex: string)
  {
    function Text(): string {
      match this
      case Plain(c) => [c]
      case Letter(c) => ['\\', c]
      case Code(hex) => ['\\', 'u'] + hex
    }
  }

  /** The character number of an escape of one letter. */
  predicate LetterMeans(c: char, number: int) {
    || (c == '\"' && number == 0x22) || (c == '\\' && number == 0x5C) || (c == '/' && number == 0x2F)
    || (c == 'b' && number == 0x08) || (c == 'f' && number == 0x0C) || (c == 'n' && number == 0x0A)
    || (c == 'r' && number == 0x0D) || (c == 't' && number == 0x09)
  }

  /** The digit is written as c, in upper or lower case. */
  predicate Spells(c: char, digit: int) {
    if digit < 10 then c as int == '0' as int + digit
    else c as int == 'a' as int + (digit - 10) || c as int == 'A' as int + (digit - 10)
  }

  /** Four hexadecimal digits, the highest first. */
  predicate SpellsCode(hex: string, u: nat) {
    && |hex| == 4 && u < 0x10000
    && Spells(hex[0], u / 4096) && Spells(hex[1], u / 256 % 16)
    && Spells(hex[2], u / 16 % 16) && Spells(hex[3], u % 16)
  }

  /** bytes is the shortest UTF-8 form of u (section 3 of RFC 3629). */
  predicate IsUtf8(bytes: string, u: nat) {
    && JsonNumbers.FromUtf8(bytes) == u
    && |bytes| == (if u < 0x80 then 1 else if u < 0x800 then 2 else 3)
    && forall i :: 0 < i < |bytes| ==> 0x80 <= bytes[i] as int < 0xC0
  }

  /** What a piece stands for. */
  ghost predicate Means(p: Piece, v: string) {
    match p
    case Plain(c) => c != '\"' && c != '\\' && v == [c]
    case Letter(c) => |v| == 1 && LetterMeans(c, v[0] as int)
    case Code(hex) => exists u: nat :: SpellsCode(hex, u) && IsUtf8(v, u)
  }

  function Texts(ps: seq<Piece>): string {
    if ps == [] then "" else ps[0].Text() + Texts(ps[1..])
  }

  function Joined(vs: seq<string>): string {
    if vs == [] then "" else vs[0] + Joined(vs[1..])
  }

  ghost predicate AllMean(ps: seq<Piece>, vs: seq<string>) {
    |ps| == |vs| && forall i :: 0 <= i < |ps| ==> Means(ps[i], vs[i])
  }

  // ---- four hexadecimal digits ----

  lemma SpellsItsValue(c: char)
    requires IsHex(c)
    ensures Spells(c, HexValue(c))
  {
  }

  lemma SpelledOnce(c: char, d: int)
    requires Spells(c, d) && 0 <= d < 16
    ensures IsHex(c) && HexValue(c) == d
  {
  }

  lemma DigitsOfCode(a: nat, b: nat, c: nat, d: nat)
    requires a < 16 && b < 16 && c < 16 && d < 16
    ensures var u := 4096 * a + 256 * b + 16 * c + d;
      u < 0x10000 && u / 4096 == a && u / 256 % 16 == b && u / 16 % 16 == c && u % 16 == d
  {
    var u := 4096 * a + 256 * b + 16 * c + d;
    assert u / 256 == 16 * a + b && u / 16 == 256 * a + 16 * b + c;
  }

  lemma CodeIsSpelled(hex: string)
    requires |hex| == 4 && forall i :: 0 <= i < 4 ==> IsHex(hex[i])
    ensures SpellsCode(hex, CodeOf(hex))
  {
    hide Spells, HexValue;
    SpellsItsValue(hex[0]);
    SpellsItsValue(hex[1]);
    SpellsItsValue(hex[2]);
    SpellsItsValue(hex[3]);
    DigitsOfCode(HexValue(hex[0]), HexValue(hex[1]), HexValue(hex[2]), HexValue(hex[3]));
  }

  lemma SpelledIsCode(hex: string, u: nat)
    requires SpellsCode(hex, u)
    ensures (forall i :: 0 <= i < 4 ==> IsHex(hex[i])) && CodeOf(hex) == u
  {
    hide Spells, HexValue, IsHex;
    SpelledOnce(hex[0], u / 4096);
    SpelledOnce(hex[1], u / 256 % 16);
    SpelledOnce(hex[2], u / 16 % 16);
    SpelledOnce(hex[3], u % 16);
    assert u == 16 * (u / 16) + u % 16 && u / 16 == 16 * (u / 256) + u / 16 % 16;
    assert u / 256 == 16 * (u / 4096) + u / 256 % 16;
  }

  lemma Utf8IsShortest(u: nat)
    requires u < 0x10000
    ensures IsUtf8(Utf8(u), u)
  {
    JsonNumbers.EscapedCodePoint(u);
  }

  lemma Utf8IsUnique(bytes: string, u: nat)
    requires u < 0x10000 && IsUtf8(bytes, u)
    ensures bytes == Utf8(u)
  {
  }

  // ---- one piece ----

  lemma LetterRead(c: char, v: string, rest: string)
    requires Means(Letter(c), v)
    ensures Escape([c] + rest) == Escaped(true, v, rest)
  {
    assert ([c] + rest)[1..] == rest;
    assert v == [v[0]];
  }

  lemma {:induction false} HexesRead(hex: string, rest: string, k: nat)
    requires |hex| == k <= 4 && forall i :: 0 <= i < k ==> IsHex(hex[i])
    ensures Hexes(hex + rest, k) == k
  {
    if k > 0 {
      HexesRead(hex[1..], rest, k - 1);
      assert (hex + rest)[1..] == hex[1..] + rest;
    }
  }

  lemma CodeRead(hex: string, v: string, rest: string)
    requires Means(Code(hex), v)
    ensures Escape("u" + hex + rest) == Escaped(true, v, rest)
  {
    hide CodeOf, Utf8, Hexes, IsHex, SpellsCode, IsUtf8;
    var u: nat :| SpellsCode(hex, u) && IsUtf8(v, u);
    SpelledFour(hex, u);
    SpelledIsCode(hex, u);
    Utf8IsUnique(v, u);
    HexesRead(hex, rest, 4);
    assert ("u" + hex + rest)[1..] == hex + rest;
    assert (hex + rest)[..4] == hex && (hex + rest)[4..] == rest;
  }

  lemma SpelledFour(hex: string, u: nat)
    requires SpellsCode(hex, u)
    ensures |hex| == 4 && u < 0x10000
  {
  }

  lemma PieceRead(p: Piece, v: string, rest: string, eval: string)
    requires Means(p, v)
    ensures StringFrom(p.Text() + rest, eval) == StringFrom(rest, eval + v)
  {
    hide Escape, SpellsCode, IsUtf8;
    match p
    case Plain(c) =>
      assert (p.Text() + rest)[1..] == rest;
    case Letter(c) =>
      LetterRead(c, v, rest);
      assert (p.Text() + rest)[1..] == [c] + rest;
    case Code(hex) =>
      CodeRead(hex, v, rest);
      assert (p.Text() + rest)[1..] == "u" + hex + rest;
  }

  lemma {:induction false} PiecesRead(ps: seq<Piece>, vs: seq<string>, rest: string, eval: string)
    requires AllMean(ps, vs)
    ensures StringFrom(Texts(ps) + "\"" + rest, eval) == Lexed(Str(eval + Joined(vs)), rest)
    decreases |ps|
  {
    hide Escape, Means, Piece.Text;
    if ps == [] {
      assert Texts(ps) + "\"" + rest == "\"" + rest && ("\"" + rest)[1..] == rest;
      assert eval + Joined(vs) == eval;
    } else {
      PieceRead(ps[0], vs[0], Texts(ps[1..]) + "\"" + rest, eval);
      assert Texts(ps) + "\"" + rest == ps[0].Text() + (Texts(ps[1..]) + "\"" + rest);
      PiecesRead(ps[1..], vs[1..], rest, eval + vs[0]);
      assert eval + vs[0] + Joined(vs[1..]) == eval + Joined(vs);
    }
  }

  // ---- the pieces of what has been read ----

  /** An escape that is read is a piece. */
  lemma EscapeIsPiece(s: string) returns (p: Piece)
    requires Escape(s).good
    ensures Means(p, Escape(s).chars) && "\\" + s == p.Text() + Escape(s).rest
  {
    if s[0] != 'u' {
      p := Letter(s[0]);
      assert "\\" + s == p.Text() + s[1..];
    } else {
      hide CodeOf, Utf8, SpellsCode, IsUtf8, IsHex;
      var hex := s[1..][..4];
      p := Code(hex);
      CodeIsSpelled(hex);
      Utf8IsShortest(CodeOf(hex));
      assert "\\" + s == p.Text() + s[1..][4..];
    }
  }

  lemma {:induction false} PiecesOf(s: string, eval: string) returns (ps: seq<Piece>, vs: seq<string>)
    requires StringFrom(s, eval).token.Str?
    ensures var l := StringFrom(s, eval);
      AllMean(ps, vs) && s == Texts(ps) + "\"" + l.rest && l.token.str == eval + Joined(vs)
    decreases |s|
  {
    hide Escape, Means, Piece.Text;
    if s[0] == '\"' {
      ps, vs := [], [];
      assert s == "" + "\"" + s[1..] && eval + "" == eval;
    } else if s[0] != '\\' {
      ps, vs := PiecesOf(s[1..], eval + [s[0]]);
      PlainIsPiece(s[0]);
      assert s == [s[0]] + s[1..];
      PieceInFront(Plain(s[0]), [s[0]], ps, vs, s, s[1..], StringFrom(s, eval).rest, eval);
      ps, vs := [Plain(s[0])] + ps, [[s[0]]] + vs;
    } else {
      var e := Escape(s[1..]);
      var p := EscapeIsPiece(s[1..]);
      ps, vs := PiecesOf(e.rest, eval + e.chars);
      assert s == "\\" + s[1..];
      PieceInFront(p, e.chars, ps, vs, s, e.rest, StringFrom(s, eval).rest, eval);
      ps, vs := [p] + ps, [e.chars] + vs;
    }
  }

  lemma PlainIsPiece(c: char)
    requires c != '\"' && c != '\\'
    ensures Means(Plain(c), [c]) && Plain(c).Text() == [c]
  {
  }

  lemma PieceInFront(p: Piece, v: string, ps: seq<Piece>, vs: seq<string>, s: string, behind: string,
                     rest: string, eval: string)
    requires Means(p, v) && AllMean(ps, vs)
    requires s == p.Text() + behind && behind == Texts(ps) + "\"" + rest
    ensures AllMean([p] + ps, [v] + vs) && s == Texts([p] + ps) + "\"" + rest
    ensures eval + v + Joined(vs) == eval + Joined([v] + vs)
  {
    hide Means, Piece.Text;
    assert ([p] + ps)[1..] == ps && ([v] + vs)[1..] == vs;
  }

  /** A quotation mark starts the string v, with rest behind it, if and only if between it and the
      next one stand pieces that together stand for v. */
  lemma StringIsRead(s: string, v: string, rest: string)
    ensures Lex("\"" + s) == Lexed(Str(v), rest) <==>
      exists ps, vs :: AllMean(ps, vs) && s == Texts(ps) + "\"" + rest && v == Joined(vs)
  {
    hide StringFrom, AllMean, SkipSpaces, Keyword, Number;
    QuoteStarts(s);
    if StringFrom(s, "") == Lexed(Str(v), rest) {
      var ps, vs := PiecesOf(s, "");
      assert "" + Joined(vs) == Joined(vs);
    }
    if ps, vs :| AllMean(ps, vs) && s == Texts(ps) + "\"" + rest && v == Joined(vs) {
      PiecesRead(ps, vs, rest, "");
      assert "" + Joined(vs) == Joined(vs);
    }
  }

  lemma QuoteStarts(s: string)
    ensures Lex("\"" + s) == StringFrom(s, "")
  {
    hide StringFrom, Keyword, Number;
    assert ("\"" + s)[1..] == s;
  }

  /** Whatever way its four digits are spelled, an escaped code point adds its UTF-8 form, and what
      is behind it is left. */
  lemma CodePointIsRead(u: nat, hex: string, rest: string, eval: string) returns (bytes: string)
    requires SpellsCode(hex, u)
    ensures IsUtf8(bytes, u)
    ensures StringFrom("\\u" + hex + rest, eval) == StringFrom(rest, eval + bytes)
  {
    hide SpellsCode, IsUtf8, StringFrom;
    SpelledFour(hex, u);
    Utf8IsShortest(u);
    bytes := Utf8(u);
    PieceRead(Code(hex), bytes, rest, eval);
    assert Code(hex).Text() + rest == "\\u" + hex + rest;
  }
}
