/** Which texts json_tuple_load of src/c7json/proxy.hpp accepts as a tuple. */
module JsonTuple {
  import opened JsonLex
  import opened JsonValue
  import opened JsonTokens
  import opened JsonRoundTrip

  /** Loading into a proxy that holds cur, from the text s on. */
  function LoadAt(ty: Type, cur: Value, s: string): Loaded {
    Load(ty, cur, Lex(s).token, Lex(s).rest)
  }

  /** From element k on: element i is loaded from starts[i] and leaves ends[i], where a comma stands
      in front of the next element and a bracket behind the last one. */
  ghost predicate Chain(ts: seq<Type>, held: seq<Value>, k: nat, items: seq<Value>, rest: string,
                        starts: seq<string>, ends: seq<string>)
  {
    && k < |ts| == |held| == |items| == |starts| == |ends|
    && (forall i :: k <= i < |ts| ==> LoadAt(ts[i], held[i], starts[i]) == Ok(items[i], ends[i]))
    && (forall i :: k <= i < |ts| - 1 ==> Lex(ends[i]) == Lexed(Comma, starts[i + 1]))
    && Lex(ends[|ts| - 1]) == Lexed(SquareR, rest)
  }

  ghost predicate Elements(ts: seq<Type>, held: seq<Value>, k: nat, s: string, items: seq<Value>, rest: string) {
    exists starts, ends :: Chain(ts, held, k, items, rest, starts, ends) && starts[k] == s
  }

  /** The elements are all there, with commas in between. */
  ghost predicate AllElements(ts: seq<Type>, held: seq<Value>, s: string, items: seq<Value>, rest: string) {
    ts != [] && Elements(ts, held, 0, s, items, rest)
  }

  /** Only the closing bracket. */
  predicate NoElement(held: seq<Value>, s: string, items: seq<Value>, rest: string) {
    items == held && Lex(s) == Lexed(SquareR, rest)
  }

  /** For the tuple without elements: one token that may be any other one, and the bracket. */
  predicate OneToken(ts: seq<Type>, s: string, items: seq<Value>, rest: string) {
    ts == [] && items == [] && Lex(s).token != SquareR && Lex(Lex(s).rest) == Lexed(SquareR, rest)
  }

  /** Element k, which starts at s, and those behind it. */
  function FromElement(ty: Type, held: seq<Value>, k: nat, s: string): Loaded
    requires ty.TupleType? && k < |held| == |ty.types|
  {
    var r := LoadAt(ty.types[k], held[k], s);
    if r.Err? then Err else LoadTuple(ty, held[k := r.value], k + 1, Lex(s).token, r.rest)
  }

  lemma FirstElement(ty: Type, held: seq<Value>, s: string)
    requires ty.TupleType? && 0 < |held| == |ty.types|
    ensures LoadTuple(ty, held, 0, Lex(s).token, Lex(s).rest) == FromElement(ty, held, 0, s)
  {
    hide Load, Lex;
  }

  lemma EndOfTuple(ty: Type, held: seq<Value>, t: Token, s: string)
    requires ty.TupleType? && |held| == |ty.types|
    ensures LoadTuple(ty, held, |held|, t, s) ==
            if Lex(s).token == SquareR then Ok(ListVal(held), Lex(s).rest) else Err
  {
    hide Load, Lex;
  }

  lemma NextElement(ty: Type, held: seq<Value>, k: nat, t: Token, s: string)
    requires ty.TupleType? && 0 < k < |held| == |ty.types|
    ensures LoadTuple(ty, held, k, t, s) ==
            if Lex(s).token == Comma then FromElement(ty, held, k, Lex(s).rest) else Err
  {
    hide Load, Lex;
  }

  lemma ElementsEnd(ts: seq<Type>, held: seq<Value>, k: nat, s: string, items: seq<Value>, rest: string)
    requires k + 1 == |ts| == |held| == |items|
    ensures Elements(ts, held, k, s, items, rest) <==>
      LoadAt(ts[k], held[k], s).Ok? && LoadAt(ts[k], held[k], s).value == items[k]
      && Lex(LoadAt(ts[k], held[k], s).rest) == Lexed(SquareR, rest)
  {
    hide LoadAt, Lex;
    var r := LoadAt(ts[k], held[k], s);
    if r.Ok? && r.value == items[k] && Lex(r.rest) == Lexed(SquareR, rest) {
      var starts, ends := seq(|ts|, _ => s), seq(|ts|, _ => r.rest);
      assert Chain(ts, held, k, items, rest, starts, ends) && starts[k] == s;
    }
  }

  lemma ElementsStep(ts: seq<Type>, held: seq<Value>, k: nat, s: string, items: seq<Value>, rest: string)
    requires k + 1 < |ts| == |held| == |items|
    ensures var r := LoadAt(ts[k], held[k], s);
      Elements(ts, held, k, s, items, rest) <==>
        && r.Ok? && r.value == items[k] && Lex(r.rest).token == Comma
        && Elements(ts, held[k := r.value], k + 1, Lex(r.rest).rest, items, rest)
  {
    hide LoadAt, Lex;
    var r := LoadAt(ts[k], held[k], s);
    if Elements(ts, held, k, s, items, rest) {
      var starts, ends :| Chain(ts, held, k, items, rest, starts, ends) && starts[k] == s;
      assert Chain(ts, held[k := r.value], k + 1, items, rest, starts, ends);
    }
    if r.Ok? && r.value == items[k] && Lex(r.rest).token == Comma {
      var s' := Lex(r.rest).rest;
      if Elements(ts, held[k := r.value], k + 1, s', items, rest) {
        var starts, ends :| Chain(ts, held[k := r.value], k + 1, items, rest, starts, ends) && starts[k + 1] == s';
        ChainGrows(ts, held, k, s, items, rest, starts, ends);
      }
    }
  }

  lemma ChainGrows(ts: seq<Type>, held: seq<Value>, k: nat, s: string, items: seq<Value>, rest: string,
                   starts: seq<string>, ends: seq<string>)
    requires k + 1 < |ts| == |held| == |items|
    requires var r := LoadAt(ts[k], held[k], s);
      && r.Ok? && r.value == items[k] && Chain(ts, held[k := r.value], k + 1, items, rest, starts, ends)
      && Lex(r.rest) == Lexed(Comma, starts[k + 1])
    ensures Elements(ts, held, k, s, items, rest)
  {
    hide LoadAt, Lex;
    var r := LoadAt(ts[k], held[k], s);
    var starts', ends' := starts[k := s], ends[k := r.rest];
    assert Chain(ts, held, k, items, rest, starts', ends') && starts'[k] == s;
  }

  lemma {:induction false} FromElementIs(ty: Type, held: seq<Value>, k: nat, s: string,
                                         items: seq<Value>, rest: string)
    requires ty.TupleType? && k < |held| == |ty.types|
    ensures FromElement(ty, held, k, s) == Ok(ListVal(items), rest) <==>
      |items| == |held| && items[..k] == held[..k] && Elements(ty.types, held, k, s, items, rest)
    decreases |held| - k
  {
    hide LoadAt, Lex, Load, Elements;
    var r := LoadAt(ty.types[k], held[k], s);
    FromElementKeepsCount(ty, held, k, s);
    if |items| == |held| {
      if k + 1 == |held| {
        ElementsEnd(ty.types, held, k, s, items, rest);
        assert r.Ok? ==> (items == held[k := r.value] <==> items[..k] == held[..k] && items[k] == r.value);
      } else {
        ElementsStep(ty.types, held, k, s, items, rest);
        if r.Ok? {
          var held' := held[k := r.value];
          NextElement(ty, held', k + 1, Lex(s).token, r.rest);
          if Lex(r.rest).token == Comma {
            FromElementIs(ty, held', k + 1, Lex(r.rest).rest, items, rest);
            assert items[..k + 1] == held'[..k + 1] <==> items[..k] == held[..k] && items[k] == r.value;
          }
        }
      }
    }
  }

  lemma FromElementKeepsCount(ty: Type, held: seq<Value>, k: nat, s: string)
    requires ty.TupleType? && k < |held| == |ty.types|
    ensures var r := FromElement(ty, held, k, s);
      r.Ok? ==> r.value.ListVal? && |r.value.items| == |held|
    decreases |held| - k
  {
    hide LoadAt, Lex, Load;
    var r := LoadAt(ty.types[k], held[k], s);
    if r.Ok? && k + 1 < |held| {
      NextElement(ty, held[k := r.value], k + 1, Lex(s).token, r.rest);
      if Lex(r.rest).token == Comma {
        FromElementKeepsCount(ty, held[k := r.value], k + 1, Lex(r.rest).rest);
      }
    }
  }

  /** No value starts with a closing bracket. */
  lemma BracketIsNoValue(ty: Type, cur: Value, rest: string)
    ensures Load(ty, cur, SquareR, rest) == Err
  {
  }

  /** For every tuple type, what loads as it: all its elements, or none of them, or, if it has
      none, one token of any kind. */
  lemma TupleLoads(ts: seq<Type>, cur: Value, s: string, items: seq<Value>, rest: string)
    ensures LoadAt(TupleType(ts), cur, s) == Ok(ListVal(items), rest) <==>
      && Lex(s).token == SquareL
      && var behind, held := Lex(s).rest, Held(ts, cur);
         || AllElements(ts, held, behind, items, rest)
         || NoElement(held, behind, items, rest)
         || OneToken(ts, behind, items, rest)
  {
    hide Lex, Held;
    var ty, held, s' := TupleType(ts), Held(ts, cur), Lex(s).rest;
    if Lex(s).token == SquareL {
      if ts == [] {
        EndOfTuple(ty, held, Lex(s').token, Lex(s').rest);
      } else {
        assert |items| == |held| ==> items[..0] == held[..0];
        FirstElement(ty, held, s');
        FromElementIs(ty, held, 0, s', items, rest);
        BracketIsNoValue(ts[0], held[0], Lex(s').rest);
      }
    }
  }

  /** Nothing else comes of loading a tuple. */
  lemma TupleLoadsAsList(ts: seq<Type>, cur: Value, s: string)
    ensures var r := LoadAt(TupleType(ts), cur, s); r.Ok? ==> r.value.ListVal? && |r.value.items| == |ts|
  {
    hide Lex, Held;
    var ty, held, s' := TupleType(ts), Held(ts, cur), Lex(s).rest;
    if ts == [] {
      EndOfTuple(ty, held, Lex(s').token, Lex(s').rest);
    } else {
      FirstElement(ty, held, s');
      FromElementKeepsCount(ty, held, 0, s');
    }
  }

  /** A JSON array with as many elements as the tuple has. */
  ghost predicate WholeTuple(ts: seq<Type>, held: seq<Value>, s: string, items: seq<Value>, rest: string) {
    if ts == [] then NoElement(held, s, items, rest) else AllElements(ts, held, s, items, rest)
  }

  /** What loads is a whole tuple exactly if the closing bracket comes at once for the tuple without
      elements only. */
  lemma WholeTupleLoads(ts: seq<Type>, cur: Value, s: string, items: seq<Value>, rest: string)
    requires LoadAt(TupleType(ts), cur, s) == Ok(ListVal(items), rest)
    ensures WholeTuple(ts, Held(ts, cur), Lex(s).rest, items, rest) <==>
            (Lex(Lex(s).rest).token == SquareR <==> ts == [])
  {
    hide Lex, Held;
    TupleLoads(ts, cur, s, items, rest);
    if ts != [] && Lex(Lex(s).rest).token == SquareR {
      BracketIsNoValue(ts[0], Held(ts, cur)[0], Lex(Lex(s).rest).rest);
    }
  }

  // ---- the two odd inputs ----

  lemma BracketsLexed()
    ensures Lex("[]") == Lexed(SquareL, "]") && Lex("]") == Lexed(SquareR, "")
  {
    hide Lex;
    MarksAreRead("]");
    MarksAreRead("");
    assert "[" + "]" == "[]" && "]" + "" == "]";
  }

  /** An empty row of brackets is taken for a tuple with elements, which then keeps its defaults. */
  lemma EmptyTextLoads(ts: seq<Type>)
    ensures JsonLoad(TupleType(ts), "[]") == Ok(Default(TupleType(ts)), "")
    ensures ts != [] ==> forall items, rest :: !AllElements(ts, Held(ts, Default(TupleType(ts))), "]", items, rest)
  {
    hide Lex;
    var ty := TupleType(ts);
    var held := Held(ts, Default(ty));
    BracketsLexed();
    assert held == Default(ty).items;
    TupleLoads(ts, Default(ty), "[]", held, "");
    if ts != [] {
      BracketIsNoValue(ts[0], held[0], "");
    }
  }

  /** An element is taken for none. */
  lemma OneElementLoadsAsNone()
    ensures JsonLoad(TupleType([]), "[1]") == Ok(ListVal([]), "")
  {
    hide Lex;
    OneElementLexed();
    TupleLoads([], Default(TupleType([])), "[1]", [], "");
  }

  lemma OneElementLexed()
    ensures Lex("[1]") == Lexed(SquareL, "1]") && Lex("1]") == Lexed(Int(1), "]") && Lex("]") == Lexed(SquareR, "")
  {
    hide Lex;
    BracketsLexed();
    MarksAreRead("1]");
    IntLexed(1, "]");
    assert "[" + "1]" == "[1]" && IntText(1) + "]" == "1]";
  }
}
