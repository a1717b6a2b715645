/** Which token a text starts with in src/c7json/lexer.cpp: white space, marks and words. */
module JsonTokens {
  import opened JsonLex

  /** The white space of section 2 of RFC 8259, by its character numbers. */
  predicate IsWhite(c: char) {
    c as int == 0x20 || c as int == 0x09 || c as int == 0x0A || c as int == 0x0D
  }

  /** Any row of white space is skipped, and at the end of the text there is no token. */
  lemma {:induction false} WhiteIsSkipped(ws: string, s: string)
    requires forall i :: 0 <= i < |ws| ==> IsWhite(ws[i])
    ensures Lex(ws + s) == Lex(s)
    ensures s == "" ==> Lex(ws + s) == Lexed(NoToken, "")
  {
    hide Keyword, StringFrom, Number;
    if ws == [] {
      assert ws + s == s;
    } else {
      WhiteIsSkipped(ws[1..], s);
      assert (ws + s)[1..] == ws[1..] + s;
    }
  }

  predicate StartsToken(c: char) {
    IsDigit(c) || c in "[]{}:,tfn\"-"
  }

  /** Nothing else is skipped, and what starts no token is a bad one. */
  lemma OthersAreBad(c: char, s: string)
    requires !IsWhite(c) && !StartsToken(c)
    ensures Lex([c] + s) == Lexed(BadToken, s)
  {
    hide Keyword, StringFrom, Number;
    assert ([c] + s)[1..] == s;
  }

  lemma {:induction false} WordIsRead(s: string, word: string, token: Token, rest: string)
    requires token != BadToken
    ensures Keyword(s, word, token) == Lexed(token, rest) <==> s == word + rest
    ensures Keyword(s, word, token).token == token || Keyword(s, word, token).token == BadToken
    decreases |word|
  {
    if word == [] {
      assert word + rest == rest;
    } else if s != [] && s[0] == word[0] {
      WordIsRead(s[1..], word[1..], token, rest);
      assert s == [s[0]] + s[1..] && word + rest == [word[0]] + (word[1..] + rest);
      assert (word + rest)[1..] == word[1..] + rest;
    }
  }

  /** The three words are read whole, and nothing else that starts like them is read as them. */
  lemma WordsAreRead(s: string, rest: string)
    ensures Lex("t" + s) == Lexed(TrueWord, rest) <==> s == "rue" + rest
    ensures Lex("f" + s) == Lexed(FalseWord, rest) <==> s == "alse" + rest
    ensures Lex("n" + s) == Lexed(NullWord, rest) <==> s == "ull" + rest
    ensures Lex("t" + s).token in {TrueWord, BadToken} && Lex("f" + s).token in {FalseWord, BadToken}
    ensures Lex("n" + s).token in {NullWord, BadToken}
  {
    hide Keyword, StringFrom, Number;
    assert ("t" + s)[1..] == s && ("f" + s)[1..] == s && ("n" + s)[1..] == s;
    WordIsRead(s, "rue", TrueWord, rest);
    WordIsRead(s, "alse", FalseWord, rest);
    WordIsRead(s, "ull", NullWord, rest);
  }

  /** The six marks of section 2 of RFC 8259 stand for themselves. */
  lemma MarksAreRead(s: string)
    ensures Lex("[" + s) == Lexed(SquareL, s) && Lex("]" + s) == Lexed(SquareR, s)
    ensures Lex("{" + s) == Lexed(CurlyL, s) && Lex("}" + s) == Lexed(CurlyR, s)
    ensures Lex(":" + s) == Lexed(Colon, s) && Lex("," + s) == Lexed(Comma, s)
  {
    hide Keyword, StringFrom, Number, SkipSpaces;
    Unspaced('[', s);
    Unspaced(']', s);
    Unspaced('{', s);
    Unspaced('}', s);
    Unspaced(':', s);
    Unspaced(',', s);
  }

  lemma Unspaced(c: char, s: string)
    requires !IsWhite(c)
    ensures SkipSpaces([c] + s) == [c] + s && ([c] + s)[0] == c && ([c] + s)[1..] == s
  {
  }
}
