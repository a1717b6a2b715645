/** What is dumped is loaded again: every typed value, under every indentation. */
module JsonRoundTrip {
  import opened Bytes
  import opened JsonLex
  import opened JsonNumbers
  import opened JsonTokens
  import opened JsonValue
  import Base64

  // ---- spaces and single characters ----

  lemma HeadSkipped(indent: nat, cur: nat, s: string)
    ensures Lex(Head(indent, cur) + s) == Lex(s)
  {
    WhiteIsSkipped(Head(indent, cur), s);
  }

  lemma WordLexed(b: bool, rest: string)
    ensures Lex((if b then "true" else "false") + rest) == Lexed(if b then TrueWord else FalseWord, rest)
  {
    hide Lex;
    WordsAreRead("rue" + rest, rest);
    WordsAreRead("alse" + rest, rest);
    assert "t" + ("rue" + rest) == "true" + rest && "f" + ("alse" + rest) == "false" + rest;
  }

  // ---- integers ----

  lemma {:induction false} NatTextIs(n: nat)
    ensures forall i :: 0 <= i < |NatText(n)| ==> IsDigit(NatText(n)[i])
    ensures NatValue(NatText(n)) == n
    ensures NatText(n)[0] == '0' ==> n == 0
  {
    if n >= 10 {
      NatTextIs(n / 10);
      assert NatText(n)[..|NatText(n)| - 1] == NatText(n / 10);
    } else {
      assert NatText(n)[..0] == [];
    }
  }

  lemma IntValueBack(i: int)
    ensures IntValue(IntText(i)) == i && |IntText(i)| > 0
  {
    hide NatText, NatValue;
    var n: nat := if i < 0 then -i else i;
    NatTextIs(n);
    assert i < 0 ==> IntText(i)[1..] == NatText(n);
  }

  function IntParts(i: int): Parts {
    Parts(i < 0, NatText(if i < 0 then -i else i), "", 'e', "", "")
  }

  lemma IntPartsText(i: int)
    ensures IntParts(i).Valid() && IntParts(i).IntText() == IntText(i)
    ensures IntParts(i).Text() == IntText(i)
  {
    hide NatText;
    var n: nat := if i < 0 then -i else i;
    NatTextIs(n);
    ZeroAlone(n);
    assert i >= 0 ==> "" + NatText(n) == NatText(n);
    NoPoint(IntParts(i));
  }

  /** The character behind a number is left to be read. */
  lemma IntLexed(i: int, rest: string)
    requires I64_MIN <= i <= I64_MAX && Delim(rest)
    ensures Lex(IntText(i) + rest) == Lexed(Int(i), rest)
  {
    hide Lex, IntText, IntValue, Parts.Valid, Parts.Text, Parts.IntText, Delim;
    IntValueBack(i);
    IntPartsText(i);
    NumberIsRead(IntParts(i), rest);
  }

  lemma ZeroAlone(n: nat)
    ensures NatText(n)[0] == '0' ==> |NatText(n)| == 1
  {
    NatTextIs(n);
  }

  // ---- strings ----

  lemma DigitIsHex(d: nat)
    requires d < 16
    ensures IsHex(Digit(d)) && HexValue(Digit(d)) == d
  {
  }

  lemma ShortEscape(c: char)
    requires |EscapedChar(c)| == 2
    ensures EscapedChar(c)[0] == '\\' && EscapedChar(c)[1] != 'u' && Unescaped(EscapedChar(c)[1]) == [c]
  {
  }

  lemma PlainChar(c: char)
    requires |EscapedChar(c)| == 1
    ensures EscapedChar(c) == [c] && c != '\\' && c != '\"'
  {
  }

  lemma LongEscape(c: char)
    ensures var e := EscapedChar(c);
      |e| == 1 || |e| == 2 || (c < ' ' && e == "\\u00" + [Digit(c as nat / 16), Digit(c as nat % 16)])
  {
  }

  /** Section 7 of RFC 8259: each character comes back from its escape. */
  lemma CharUnescaped(c: char, rest: string, eval: string)
    ensures StringFrom(EscapedChar(c) + rest, eval) == StringFrom(rest, eval + [c])
  {
    hide EscapedChar, Unescaped, Hexes, Digit, CodeOf;
    var e := EscapedChar(c);
    var s := e + rest;
    LongEscape(c);
    if |e| == 1 {
      PlainChar(c);
      assert s[1..] == rest;
    } else if |e| == 2 {
      ShortEscape(c);
      assert s[1..][1..] == rest;
    } else {
      ControlUnescaped(c, rest);
      assert s[1..] == "u00" + [Digit(c as nat / 16), Digit(c as nat % 16)] + rest;
    }
  }

  lemma ControlUnescaped(c: char, rest: string)
    requires c < ' '
    ensures Escape("u00" + [Digit(c as nat / 16), Digit(c as nat % 16)] + rest) == Escaped(true, [c], rest)
  {
    var hex := "00" + [Digit(c as nat / 16), Digit(c as nat % 16)];
    var s := "u00" + [Digit(c as nat / 16), Digit(c as nat % 16)] + rest;
    DigitIsHex(c as nat / 16);
    DigitIsHex(c as nat % 16);
    HexesRead(hex, rest);
    assert s[1..] == hex + rest;
    assert s[1..][..4] == hex;
    assert CodeOf(hex) == c as nat;
  }

  lemma {:induction false} HexesRead(hex: string, rest: string)
    requires |hex| <= 4 && forall i :: 0 <= i < |hex| ==> IsHex(hex[i])
    ensures Hexes(hex + rest, |hex|) == |hex|
  {
    if hex != [] {
      HexesRead(hex[1..], rest);
      assert (hex + rest)[1..] == hex[1..] + rest;
    }
  }

  lemma {:induction false} StringUnescaped(s: string, rest: string, eval: string)
    ensures StringFrom(EscapedText(s) + "\"" + rest, eval) == Lexed(Str(eval + s), rest)
    decreases |s|
  {
    hide EscapedChar, Escape;
    if s == [] {
      assert eval + s == eval;
      assert EscapedText(s) + "\"" + rest == "\"" + rest;
    } else {
      var behind := EscapedText(s[1..]) + "\"" + rest;
      assert EscapedText(s) + "\"" + rest == EscapedChar(s[0]) + behind;
      CharUnescaped(s[0], behind, eval);
      StringUnescaped(s[1..], rest, eval + [s[0]]);
      assert eval + [s[0]] + s[1..] == eval + s;
    }
  }

  /** Section 7 of RFC 8259: no control character is left unescaped in a string. */
  lemma {:induction false} NoControlsLeft(s: string, i: nat)
    requires i < |EscapedText(s)|
    ensures EscapedText(s)[i] >= ' '
  {
    hide EscapedChar;
    NoControlIn(s[0]);
    if i >= |EscapedChar(s[0])| {
      NoControlsLeft(s[1..], i - |EscapedChar(s[0])|);
    }
  }

  lemma NoControlIn(c: char)
    ensures forall j :: 0 <= j < |EscapedChar(c)| ==> EscapedChar(c)[j] >= ' '
  {
    if |EscapedChar(c)| == 6 {
      DigitIsHex(c as nat / 16);
      DigitIsHex(c as nat % 16);
    }
  }

  lemma StringLexed(s: string, rest: string)
    ensures Lex(Quoted(s) + rest) == Lexed(Str(s), rest)
  {
    hide StringFrom, EscapedText, SkipSpaces, Keyword, Number;
    StringUnescaped(s, rest, []);
    assert Quoted(s) + rest == ['\"'] + (EscapedText(s) + "\"" + rest);
    Unspaced('\"', EscapedText(s) + "\"" + rest);
    assert [] + s == s;
  }

  lemma {:induction false} PlainRead(name: string, rest: string, eval: string)
    requires PlainName(name)
    ensures StringFrom(name + "\"" + rest, eval) == Lexed(Str(eval + name), rest)
    decreases |name|
  {
    hide Escape;
    if name == [] {
      assert eval + name == eval;
      assert name + "\"" + rest == "\"" + rest;
    } else {
      assert (name + "\"" + rest)[1..] == name[1..] + "\"" + rest;
      PlainRead(name[1..], rest, eval + [name[0]]);
      assert eval + [name[0]] + name[1..] == eval + name;
    }
  }

  /** An escape takes more characters than it stands for. */
  lemma EscapeShrinks(s: string)
    ensures |Escape(s).chars| + |Escape(s).rest| <= |s|
  {
  }

  lemma {:induction false} StringShrinks(s: string, eval: string)
    ensures var l := StringFrom(s, eval); l.token.Str? ==> |l.token.str| + |l.rest| < |eval| + |s|
    decreases |s|
  {
    hide Escape;
    if s != [] && s[0] != '\"' {
      if s[0] == '\\' {
        EscapeShrinks(s[1..]);
        StringShrinks(Escape(s[1..]).rest, eval + Escape(s[1..]).chars);
      } else {
        StringShrinks(s[1..], eval + [s[0]]);
      }
    }
  }

  lemma {:induction false} NotPlainRead(name: string, rest: string, eval: string)
    requires !PlainName(name)
    ensures StringFrom(name + "\"" + rest, eval) != Lexed(Str(eval + name), rest)
    decreases |name|
  {
    hide Escape;
    var s := name + "\"" + rest;
    assert s[1..] == name[1..] + "\"" + rest;
    if name[0] == '\\' {
      EscapeShrinks(s[1..]);
      StringShrinks(Escape(s[1..]).rest, eval + Escape(s[1..]).chars);
    } else if name[0] != '\"' {
      assert eval + [name[0]] + name[1..] == eval + name;
      NotPlainRead(name[1..], rest, eval + [name[0]]);
    }
  }

  /** A member name is written as it is, and it is read back exactly if it is plain. */
  lemma NameLexed(name: string, rest: string)
    ensures Lex("\"" + name + "\":" + rest) == Lexed(Str(name), ":" + rest) <==> PlainName(name)
  {
    hide StringFrom, SkipSpaces, Keyword, Number, PlainName;
    assert "\"" + name + "\":" + rest == ['\"'] + (name + "\"" + (":" + rest));
    Unspaced('\"', name + "\"" + (":" + rest));
    assert [] + name == name;
    if PlainName(name) {
      PlainRead(name, ":" + rest, []);
    } else {
      NotPlainRead(name, ":" + rest, []);
    }
  }

  // ---- values ----

  lemma DefaultItem(ty: Type, i: nat)
    requires ty.Row() && HasItem(ty, i) && !ty.ArrayType?
    ensures ItemIn(Default(ty), i, ItemType(ty, i)) == Default(ItemType(ty, i))
  {
  }

  lemma Regrouped(p: string, l: string, t: string, r: string, c: string)
    ensures p + l + t + r + c == p + (l + (t + (r + c)))
  {
  }

  /** Item k and what is behind it. */
  ghost function FromItem(ty: Type, items: seq<Value>, k: nat, indent: nat, cur: nat, close: string): string
    requires RowOf(ty, items) && k < |items|
  {
    Text(ItemType(ty, k), items[k], indent, cur) + (ItemsText(ty, items, k + 1, indent, cur) + close)
  }

  lemma ItemsUnfold(ty: Type, items: seq<Value>, k: nat, indent: nat, cur: nat, close: string)
    requires RowOf(ty, items) && k < |items|
    ensures ItemsText(ty, items, k, indent, cur) + close
         == Pref(k == 0, indent, cur) + (Label(ty, k) + FromItem(ty, items, k, indent, cur, close))
  {
    hide Text, Head, Label, Pref;
    Regrouped(Pref(k == 0, indent, cur), Label(ty, k), Text(ItemType(ty, k), items[k], indent, cur),
              ItemsText(ty, items, k + 1, indent, cur), close);
  }

  lemma CommaLexed(indent: nat, cur: nat, s: string)
    ensures Delim(Pref(false, indent, cur) + s)
    ensures Lex(Pref(false, indent, cur) + s).token == Comma
    ensures Lex(Lex(Pref(false, indent, cur) + s).rest) == Lex(s)
  {
    hide Lex, Head;
    assert Pref(false, indent, cur) + s == "," + (Head(indent, cur) + s);
    MarksAreRead(Head(indent, cur) + s);
    HeadSkipped(indent, cur, s);
  }

  /** Behind item k - 1 comes the closing bracket or a comma and item k. */
  lemma NextItem(ty: Type, items: seq<Value>, k: nat, indent: nat, cur: nat, close: string)
    requires RowOf(ty, items) && 0 < k <= |items| && Delim(close)
    ensures var s := ItemsText(ty, items, k, indent, cur) + close;
      && Delim(s)
      && (k == |items| ==> s == close)
      && (k < |items| ==>
           && Lex(s).token == Comma
           && Lex(Lex(s).rest) == Lex(Label(ty, k) + FromItem(ty, items, k, indent, cur, close)))
  {
    hide Lex, Pref, Label, FromItem;
    if k < |items| {
      ItemsUnfold(ty, items, k, indent, cur, close);
      CommaLexed(indent, cur, Label(ty, k) + FromItem(ty, items, k, indent, cur, close));
    }
  }

  /** The first item is read behind the opening bracket. */
  lemma FirstItem(ty: Type, items: seq<Value>, indent: nat, cur: nat, close: string)
    requires RowOf(ty, items) && items != []
    ensures Lex(ItemsText(ty, items, 0, indent, cur) + close)
         == Lex(Label(ty, 0) + FromItem(ty, items, 0, indent, cur, close))
  {
    hide Lex, Head, Label, FromItem, ItemsText;
    ItemsUnfold(ty, items, 0, indent, cur, close);
    HeadSkipped(indent, cur, Label(ty, 0) + FromItem(ty, items, 0, indent, cur, close));
  }

  /** Where the items end. */
  lemma CloseLexed(ty: Type, indent: nat, cur: nat, rest: string)
    ensures var close := Head(indent, cur) + ([Closing(ty)] + rest);
      Delim(close) && Lex(close) == Lexed(if Closing(ty) == '}' then CurlyR else SquareR, rest)
  {
    HeadSkipped(indent, cur, [Closing(ty)] + rest);
    MarksAreRead(rest);
  }

  /** The item at k is loaded, and the text in front of the next one or the bracket is left. */
  ghost predicate Comes(ty: Type, v: Value, indent: nat, cur: nat, rest: string)
    requires HasType(v, ty)
  {
    var l := Lex(Text(ty, v, indent, cur) + rest);
    l.token != NoToken && l.token != SquareR && Load(ty, Default(ty), l.token, l.rest) == Ok(v, rest)
  }

  lemma NoLabel(ty: Type, i: nat, s: string)
    requires ty.Row() && HasItem(ty, i) && !ty.StructType?
    ensures Label(ty, i) + s == s
  {
  }

  lemma {:induction false} ArrayComes(ty: Type, items: seq<Value>, k: nat, indent: nat, cur: nat, close: string, rest: string)
    requires ty.ArrayType? && RowOf(ty, items) && k < |items|
    requires Delim(close) && Lex(close) == Lexed(SquareR, rest)
    ensures var l := Lex(FromItem(ty, items, k, indent, cur, close));
      && l.token != NoToken && l.token != SquareR
      && LoadArray(ty, items[..k], l.token, l.rest) == Ok(ListVal(items), rest)
    decreases items, |items| - k, 0
  {
    hide Text, ItemsText, Lex, Load, Label;
    NextItem(ty, items, k + 1, indent, cur, close);
    RoundTrip(ty.element, items[k], indent, cur, ItemsText(ty, items, k + 1, indent, cur) + close);
    assert items[..k] + [items[k]] == items[..k + 1];
    if k + 1 < |items| {
      NoLabel(ty, k + 1, FromItem(ty, items, k + 1, indent, cur, close));
      ArrayComes(ty, items, k + 1, indent, cur, close, rest);
    } else {
      assert items[..k + 1] == items;
    }
  }

  /** The items loaded so far and the cleared ones behind them. */
  function Partly(ty: Type, items: seq<Value>, k: nat): (r: seq<Value>)
    requires ty.Row() && !ty.ArrayType? && k <= |items| && Arity(ty, |items|)
    ensures |r| == |items|
  {
    seq(|items|, i requires 0 <= i < |items| => if i < k then items[i] else Default(ItemType(ty, i)))
  }

  lemma {:induction false} TupleComes(ty: Type, items: seq<Value>, k: nat, indent: nat, cur: nat, close: string, rest: string)
    requires ty.TupleType? && RowOf(ty, items) && k < |items|
    requires Delim(close) && Lex(close) == Lexed(SquareR, rest)
    ensures var s := FromItem(ty, items, k, indent, cur, close); var l := Lex(s);
      && l.token != NoToken && l.token != SquareR
      && (k == 0 ==> LoadTuple(ty, Partly(ty, items, 0), 0, l.token, l.rest) == Ok(ListVal(items), rest))
      && (k > 0 ==> forall t, before ::
            Lex(before).token == Comma && Lex(Lex(before).rest) == l
            ==> LoadTuple(ty, Partly(ty, items, k), k, t, before) == Ok(ListVal(items), rest))
    decreases items, |items| - k, 0
  {
    hide Text, ItemsText, Lex, Load, Label;
    NextItem(ty, items, k + 1, indent, cur, close);
    var behind := ItemsText(ty, items, k + 1, indent, cur) + close;
    RoundTrip(ItemType(ty, k), items[k], indent, cur, behind);
    assert Partly(ty, items, k)[k := items[k]] == Partly(ty, items, k + 1);
    if k + 1 < |items| {
      NoLabel(ty, k + 1, FromItem(ty, items, k + 1, indent, cur, close));
      TupleComes(ty, items, k + 1, indent, cur, close, rest);
    } else {
      assert Partly(ty, items, k + 1) == items;
    }
  }

  lemma {:induction false} FindsMember(ms: seq<Member>, i: nat)
    requires GoodNames(ms) && i < |ms|
    ensures Find(ms, ms[i].name) == i
  {
    if i > 0 {
      assert ms[0].name != ms[i].name;
      FindsMember(ms[1..], i - 1);
    }
  }

  lemma {:induction false} MembersCome(ty: Type, items: seq<Value>, k: nat, indent: nat, cur: nat, close: string, rest: string)
    requires ty.StructType? && RowOf(ty, items) && k < |items|
    requires Delim(close) && Lex(close) == Lexed(CurlyR, rest)
    ensures var l := Lex(Label(ty, k) + FromItem(ty, items, k, indent, cur, close));
      && l.token.Str?
      && LoadMembers(ty, Partly(ty, items, k), l.token, l.rest) == Ok(ListVal(items), rest)
    decreases items, |items| - k, 0
  {
    hide Text, ItemsText, Lex, Load, Find;
    var s := FromItem(ty, items, k, indent, cur, close);
    NameLexed(ty.members[k].name, s);
    assert Label(ty, k) + s == "\"" + ty.members[k].name + "\":" + s;
    MarksAreRead(s);
    FindsMember(ty.members, k);
    NextItem(ty, items, k + 1, indent, cur, close);
    RoundTrip(ItemType(ty, k), items[k], indent, cur, ItemsText(ty, items, k + 1, indent, cur) + close);
    assert Partly(ty, items, k)[k := items[k]] == Partly(ty, items, k + 1);
    if k + 1 < |items| {
      MembersCome(ty, items, k + 1, indent, cur, close, rest);
    } else {
      assert Partly(ty, items, k + 1) == items;
    }
  }

  // ---- rows ----

  ghost function Close(ty: Type, indent: nat, cur: nat, rest: string): string {
    Head(indent, cur) + ([Closing(ty)] + rest)
  }

  lemma RowOpens(ty: Type, v: Value, indent: nat, cur: nat, rest: string)
    requires HasType(v, ty) && ty.Row()
    ensures RowOf(ty, v.items)
    ensures Lex(Text(ty, v, indent, cur) + rest)
         == Lexed(if ty.StructType? then CurlyL else SquareL,
                  ItemsText(ty, v.items, 0, indent, cur + indent) + Close(ty, indent, cur, rest))
  {
    hide ItemsText, Lex, Head, Load, Label;
    var items := ItemsText(ty, v.items, 0, indent, cur + indent);
    assert Text(ty, v, indent, cur) + rest == [Opening(ty)] + (items + Close(ty, indent, cur, rest));
    MarksAreRead(items + Close(ty, indent, cur, rest));
  }

  lemma PairLoads(ty: Type, s: string, v1: Value, s1: string, v2: Value, s2: string, rest: string)
    requires ty.PairType?
    requires Load(ty.first, Default(ty.first), Lex(s).token, Lex(s).rest) == Ok(v1, s1)
    requires Lex(s1).token == Comma
    requires var l := Lex(Lex(s1).rest); Load(ty.second, Default(ty.second), l.token, l.rest) == Ok(v2, s2)
    requires Lex(s2) == Lexed(SquareR, rest)
    ensures Load(ty, Default(ty), SquareL, s) == Ok(ListVal([v1, v2]), rest)
  {
    hide Lex;
    DefaultItem(ty, 0);
    DefaultItem(ty, 1);
  }

  lemma PairComes(ty: Type, v: Value, indent: nat, cur: nat, rest: string)
    requires ty.PairType? && HasType(v, ty)
    ensures Comes(ty, v, indent, cur, rest)
    decreases v, 1
  {
    hide ItemsText, Text, Lex, Head, Label, Load, Default;
    var items, close, cur' := v.items, Close(ty, indent, cur, rest), cur + indent;
    RowOpens(ty, v, indent, cur, rest);
    CloseLexed(ty, indent, cur, rest);
    var s0 := ItemsText(ty, items, 0, indent, cur') + close;
    var s1 := ItemsText(ty, items, 1, indent, cur') + close;
    FirstItem(ty, items, indent, cur', close);
    NoLabel(ty, 0, FromItem(ty, items, 0, indent, cur', close));
    NextItem(ty, items, 1, indent, cur', close);
    NoLabel(ty, 1, FromItem(ty, items, 1, indent, cur', close));
    NextItem(ty, items, 2, indent, cur', close);
    RoundTrip(ty.first, items[0], indent, cur', s1);
    RoundTrip(ty.second, items[1], indent, cur', close);
    PairLoads(ty, s0, items[0], s1, items[1], close, rest);
    assert items == [items[0], items[1]];
  }

  lemma ArrayTextComes(ty: Type, v: Value, indent: nat, cur: nat, rest: string)
    requires ty.ArrayType? && HasType(v, ty)
    ensures Comes(ty, v, indent, cur, rest)
    decreases v, 1
  {
    hide ItemsText, Text, Lex, Head, Load, Default;
    RowOpens(ty, v, indent, cur, rest);
    CloseLexed(ty, indent, cur, rest);
    ArrayBodyComes(ty, v, indent, cur + indent, Close(ty, indent, cur, rest), rest);
  }

  lemma ArrayOpens(ty: Type, s: string)
    requires ty.ArrayType?
    ensures Load(ty, Default(ty), SquareL, s) ==
      if Lex(s).token == SquareR then Ok(ListVal([]), Lex(s).rest) else LoadArray(ty, [], Lex(s).token, Lex(s).rest)
  {
    hide Lex, LoadArray;
  }

  lemma ArrayBodyComes(ty: Type, v: Value, indent: nat, cur: nat, close: string, rest: string)
    requires ty.ArrayType? && HasType(v, ty) && v.ListVal? && RowOf(ty, v.items)
    requires Delim(close) && Lex(close) == Lexed(SquareR, rest)
    ensures Load(ty, Default(ty), SquareL, ItemsText(ty, v.items, 0, indent, cur) + close) == Ok(v, rest)
    decreases v, 0
  {
    hide ItemsText, Lex, Label, Load, LoadArray, Default, FromItem, HasType, RowOf;
    var items := v.items;
    ArrayOpens(ty, ItemsText(ty, items, 0, indent, cur) + close);
    if items == [] {
      NoItems(ty, indent, cur, close);
    } else {
      FirstItem(ty, items, indent, cur, close);
      NoLabel(ty, 0, FromItem(ty, items, 0, indent, cur, close));
      ArrayComes(ty, items, 0, indent, cur, close, rest);
      assert items[..0] == [];
    }
  }

  lemma NoItems(ty: Type, indent: nat, cur: nat, close: string)
    requires RowOf(ty, [])
    ensures ItemsText(ty, [], 0, indent, cur) + close == close
  {
  }

  lemma ClearedItems(ty: Type, v: Value)
    requires (ty.TupleType? || ty.StructType?) && HasType(v, ty)
    ensures Default(ty).items == Partly(ty, v.items, 0)
    ensures forall i :: 0 <= i < |v.items| ==> ItemIn(Default(ty), i, ItemType(ty, i)) == Partly(ty, v.items, 0)[i]
  {
  }

  lemma HeldIsCleared(ty: Type, v: Value)
    requires ty.TupleType? && HasType(v, ty)
    ensures Held(ty.types, Default(ty)) == Partly(ty, v.items, 0)
  {
    hide Default;
    ClearedItems(ty, v);
  }

  lemma TupleOpens(ty: Type, cur: Value, s: string)
    requires ty.TupleType?
    ensures var l, held := Lex(s), Held(ty.types, cur);
      Load(ty, cur, SquareL, s) ==
      if l.token == SquareR then Ok(ListVal(held), l.rest) else LoadTuple(ty, held, 0, l.token, l.rest)
  {
    hide Lex, LoadTuple, Held;
  }

  lemma TupleBodyComes(ty: Type, v: Value, indent: nat, cur: nat, close: string, rest: string)
    requires ty.TupleType? && HasType(v, ty) && v.ListVal? && RowOf(ty, v.items)
    requires Delim(close) && Lex(close) == Lexed(SquareR, rest)
    ensures Load(ty, Default(ty), SquareL, ItemsText(ty, v.items, 0, indent, cur) + close) == Ok(v, rest)
    decreases v, 0
  {
    hide ItemsText, Lex, Label, Load, LoadTuple, Default, Held, Partly, FromItem, HasType, RowOf;
    var items := v.items;
    HeldIsCleared(ty, v);
    TupleOpens(ty, Default(ty), ItemsText(ty, items, 0, indent, cur) + close);
    if items == [] {
      NoItems(ty, indent, cur, close);
      assert Held(ty.types, Default(ty)) == items;
    } else {
      FirstItem(ty, items, indent, cur, close);
      NoLabel(ty, 0, FromItem(ty, items, 0, indent, cur, close));
      TupleComes(ty, items, 0, indent, cur, close, rest);
    }
  }

  lemma TupleTextComes(ty: Type, v: Value, indent: nat, cur: nat, rest: string)
    requires ty.TupleType? && HasType(v, ty)
    ensures Comes(ty, v, indent, cur, rest)
    decreases v, 1
  {
    hide ItemsText, Text, Lex, Head, Load, Default;
    RowOpens(ty, v, indent, cur, rest);
    CloseLexed(ty, indent, cur, rest);
    TupleBodyComes(ty, v, indent, cur + indent, Close(ty, indent, cur, rest), rest);
  }

  lemma StructTextComes(ty: Type, v: Value, indent: nat, cur: nat, rest: string)
    requires ty.StructType? && HasType(v, ty)
    ensures Comes(ty, v, indent, cur, rest)
    decreases v, 1
  {
    hide ItemsText, Text, Lex, Head, Label, LoadMembers, Default;
    var items, close := v.items, Close(ty, indent, cur, rest);
    RowOpens(ty, v, indent, cur, rest);
    CloseLexed(ty, indent, cur, rest);
    ClearedItems(ty, v);
    var held := HeldMembers(ty.members, Default(ty));
    assert held == Partly(ty, items, 0);
    if items == [] {
      NoItems(ty, indent, cur + indent, close);
      assert held == items;
    } else {
      FirstItem(ty, items, indent, cur + indent, close);
      MembersCome(ty, items, 0, indent, cur + indent, close, rest);
    }
  }

  // ---- dicts ----

  ghost function FromEntry(ty: Type, entries: seq<Entry>, k: nat, indent: nat, cur: nat, close: string): string
    requires EntriesOf(ty, entries) && k < |entries|
  {
    KeyText(ty.key, entries[k].key)
    + (":" + (Text(ty.value, entries[k].value, indent, cur) + (EntriesText(ty, entries, k + 1, indent, cur) + close)))
  }

  lemma EntriesUnfold(ty: Type, entries: seq<Entry>, k: nat, indent: nat, cur: nat, close: string)
    requires EntriesOf(ty, entries) && k < |entries|
    ensures EntriesText(ty, entries, k, indent, cur) + close
         == Pref(k == 0, indent, cur) + FromEntry(ty, entries, k, indent, cur, close)
  {
    hide Text, Head, Pref, KeyText;
    var key, value := KeyText(ty.key, entries[k].key), Text(ty.value, entries[k].value, indent, cur);
    Regrouped(key, ":", value, EntriesText(ty, entries, k + 1, indent, cur), close);
    var all := EntryText(ty, entries[k], indent, cur) + EntriesText(ty, entries, k + 1, indent, cur);
    assert all + close == FromEntry(ty, entries, k, indent, cur, close);
    assert EntriesText(ty, entries, k, indent, cur) == Pref(k == 0, indent, cur) + all;
  }

  lemma NextEntry(ty: Type, entries: seq<Entry>, k: nat, indent: nat, cur: nat, close: string)
    requires EntriesOf(ty, entries) && 0 < k <= |entries| && Delim(close)
    ensures var s := EntriesText(ty, entries, k, indent, cur) + close;
      && Delim(s)
      && (k == |entries| ==> s == close)
      && (k < |entries| ==>
           Lex(s).token == Comma && Lex(Lex(s).rest) == Lex(FromEntry(ty, entries, k, indent, cur, close)))
  {
    hide Lex, Pref, FromEntry;
    if k < |entries| {
      EntriesUnfold(ty, entries, k, indent, cur, close);
      CommaLexed(indent, cur, FromEntry(ty, entries, k, indent, cur, close));
    }
  }

  /** A key comes back from inside its string. */
  lemma KeyComes(ty: Type, key: Value, rest: string)
    requires HasType(key, ty)
    ensures var l := Lex(KeyText(ty, key) + rest);
      l.token.Str? && l.rest == rest && LoadKey(ty, l.token.str).Ok? && LoadKey(ty, l.token.str).value == key
    decreases key, 3
  {
    hide Lex;
    match ty
    case StrType => StringLexed(key.s, rest);
    case BinType =>
      StringLexed(Base64.Encode(key.bytes), rest);
      BinComes(key.bytes);
    case _ =>
      StringLexed(Text(ty, key, 0, 0), rest);
      RoundTrip(ty, key, 0, 0, "");
      assert Text(ty, key, 0, 0) + "" == Text(ty, key, 0, 0);
  }

  lemma BinComes(bytes: seq<Byte>)
    ensures Base64.Decode(Padded(Base64.Encode(bytes))) == bytes
  {
    hide Base64.Encode, Base64.Decode, Padded;
    Base64.DecodeOfEncode(bytes);
    NothingPadded(Base64.Encode(bytes));
  }

  lemma NothingPadded(s: string)
    requires |s| % 4 == 0
    ensures Padded(s) == s
  {
  }

  lemma {:induction false} NewKeyAppended(entries: seq<Entry>, key: Value, value: Value)
    requires forall i :: 0 <= i < |entries| ==> entries[i].key != key
    ensures Assigned(entries, key, value) == entries + [Entry(key, value)]
  {
    if entries != [] { NewKeyAppended(entries[1..], key, value); }
  }

  lemma {:induction false} EntriesCome(ty: Type, entries: seq<Entry>, k: nat, indent: nat, cur: nat, close: string, rest: string)
    requires EntriesOf(ty, entries) && k < |entries|
    requires Delim(close) && Lex(close) == Lexed(CurlyR, rest)
    ensures var l := Lex(FromEntry(ty, entries, k, indent, cur, close));
      && l.token.Str?
      && LoadEntries(ty, entries[..k], l.token, l.rest) == Ok(DictVal(entries), rest)
    decreases entries, |entries| - k, 0
  {
    hide Text, EntriesText, Lex, Load, LoadKey, KeyText, Assigned;
    var e := entries[k];
    var behind := EntriesText(ty, entries, k + 1, indent, cur) + close;
    var s := Text(ty.value, e.value, indent, cur) + behind;
    NextEntry(ty, entries, k + 1, indent, cur, close);
    EntryComes(ty, e, indent, cur, behind);
    MarksAreRead(s);
    NewKeyAppended(entries[..k], e.key, e.value);
    assert entries[..k] + [Entry(e.key, e.value)] == entries[..k + 1];
    if k + 1 < |entries| {
      EntriesCome(ty, entries, k + 1, indent, cur, close, rest);
    } else {
      assert entries[..k + 1] == entries;
    }
  }

  lemma EntryComes(ty: Type, e: Entry, indent: nat, cur: nat, behind: string)
    requires ty.DictType? && HasType(e.key, ty.key) && HasType(e.value, ty.value) && Delim(behind)
    ensures Comes(ty.value, e.value, indent, cur, behind)
    ensures var s := ":" + (Text(ty.value, e.value, indent, cur) + behind);
      var l := Lex(KeyText(ty.key, e.key) + s);
      l.token.Str? && l.rest == s && LoadKey(ty.key, l.token.str).Ok? && LoadKey(ty.key, l.token.str).value == e.key
    decreases e, 0
  {
    KeyComes(ty.key, e.key, ":" + (Text(ty.value, e.value, indent, cur) + behind));
    RoundTrip(ty.value, e.value, indent, cur, behind);
  }

  lemma DictTextComes(ty: Type, v: Value, indent: nat, cur: nat, rest: string)
    requires ty.DictType? && HasType(v, ty)
    ensures Comes(ty, v, indent, cur, rest)
    decreases v, 1
  {
    hide EntriesText, Lex, Head, Load, LoadEntries, FromEntry, Text;
    DictLoads(ty, EntriesText(ty, v.entries, 0, indent, cur + indent) + Close(ty, indent, cur, rest));
    var entries, close, cur' := v.entries, Close(ty, indent, cur, rest), cur + indent;
    CloseLexed(ty, indent, cur, rest);
    DictOpens(ty, v, indent, cur, rest);
    if entries == [] {
      NoEntries(ty, indent, cur', close);
    } else {
      FirstEntry(ty, entries, indent, cur', close);
      EntriesCome(ty, entries, 0, indent, cur', close, rest);
      assert entries[..0] == [];
    }
  }

  lemma DictLoads(ty: Type, s: string)
    requires ty.DictType?
    ensures var l := Lex(s);
      Load(ty, Default(ty), CurlyL, s)
      == if l.token == CurlyR then Ok(DictVal([]), l.rest) else LoadEntries(ty, [], l.token, l.rest)
  {
    hide Lex, LoadEntries;
  }

  lemma FirstEntry(ty: Type, entries: seq<Entry>, indent: nat, cur: nat, close: string)
    requires EntriesOf(ty, entries) && entries != []
    ensures Lex(EntriesText(ty, entries, 0, indent, cur) + close) == Lex(FromEntry(ty, entries, 0, indent, cur, close))
  {
    hide Lex, Head, FromEntry, EntriesText;
    EntriesUnfold(ty, entries, 0, indent, cur, close);
    HeadSkipped(indent, cur, FromEntry(ty, entries, 0, indent, cur, close));
  }

  lemma DictOpens(ty: Type, v: Value, indent: nat, cur: nat, rest: string)
    requires HasType(v, ty) && ty.DictType?
    ensures EntriesOf(ty, v.entries)
    ensures Lex(Text(ty, v, indent, cur) + rest)
         == Lexed(CurlyL, EntriesText(ty, v.entries, 0, indent, cur + indent) + Close(ty, indent, cur, rest))
  {
    hide EntriesText, Lex, Head;
    var all := EntriesText(ty, v.entries, 0, indent, cur + indent);
    assert Text(ty, v, indent, cur) + rest == "{" + (all + Close(ty, indent, cur, rest));
    MarksAreRead(all + Close(ty, indent, cur, rest));
  }

  lemma NoEntries(ty: Type, indent: nat, cur: nat, close: string)
    requires EntriesOf(ty, [])
    ensures EntriesText(ty, [], 0, indent, cur) + close == close
  {
  }

  // ---- everything ----

  lemma {:induction false} RoundTrip(ty: Type, v: Value, indent: nat, cur: nat, rest: string)
    requires HasType(v, ty) && Delim(rest)
    ensures Comes(ty, v, indent, cur, rest)
    decreases v, 2
  {
    hide Lex, ItemsText, EntriesText, IntText, Quoted, Base64.Encode, Base64.Decode;
    match ty
    case IntType => IntLexed(v.i, rest);
    case BoolType => WordLexed(v.b, rest);
    case StrType => StringLexed(v.s, rest);
    case BinType =>
      StringLexed(Base64.Encode(v.bytes), rest);
      BinComes(v.bytes);
    case PairType(_, _) => PairComes(ty, v, indent, cur, rest);
    case TupleType(_) => TupleTextComes(ty, v, indent, cur, rest);
    case ArrayType(_) => ArrayTextComes(ty, v, indent, cur, rest);
    case StructType(_) => StructTextComes(ty, v, indent, cur, rest);
    case DictType(_, _) => DictTextComes(ty, v, indent, cur, rest);
  }

  /** json_load of json_dump: the value itself, with what is behind it left to be read. */
  lemma JsonRoundTrip(ty: Type, v: Value, indent: nat, rest: string)
    requires HasType(v, ty) && Delim(rest)
    ensures JsonLoad(ty, JsonDump(ty, v, indent) + rest) == Ok(v, rest)
  {
    RoundTrip(ty, v, indent, 0, rest);
  }
}
