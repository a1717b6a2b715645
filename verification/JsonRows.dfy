/** Which texts the loaders of src/c7json/proxy.cpp accept as arrays and structs, and as what. */
module JsonRows {
  import opened JsonLex
  import opened JsonValue
  import opened JsonTuple
  import Base64
  import Bytes

  // ---- what a cleared proxy holds ----

  /** Zero, false, empty, or made of such values. */
  ghost predicate IsCleared(ty: Type, v: Value)
    decreases ty
  {
    match ty
    case IntType => v == IntVal(0)
    case BoolType => v == BoolVal(false)
    case StrType => v == StrVal("")
    case BinType => v == BinVal([])
    case ArrayType(_) => v == ListVal([])
    case DictType(_, _) => v == DictVal([])
    case PairType(a, b) => v.ListVal? && |v.items| == 2 && IsCleared(a, v.items[0]) && IsCleared(b, v.items[1])
    case TupleType(ts) => v.ListVal? && |v.items| == |ts| && forall i :: 0 <= i < |ts| ==> IsCleared(ts[i], v.items[i])
    case StructType(ms) =>
      v.ListVal? && |v.items| == |ms| && forall i :: 0 <= i < |ms| ==> IsCleared(ms[i].ty, v.items[i])
  }

  lemma {:induction false} DefaultIsCleared(ty: Type)
    ensures IsCleared(ty, Default(ty))
    decreases ty
  {
    match ty
    case PairType(a, b) =>
      DefaultIsCleared(a);
      DefaultIsCleared(b);
    case TupleType(ts) =>
      forall i | 0 <= i < |ts|
        ensures IsCleared(ts[i], Default(ty).items[i])
      {
        DefaultIsCleared(ts[i]);
      }
    case StructType(ms) =>
      forall i | 0 <= i < |ms|
        ensures IsCleared(ms[i].ty, Default(ty).items[i])
      {
        DefaultIsCleared(ms[i].ty);
      }
    case _ =>
  }

  // ---- arrays ----

  /** One element or more: element i is loaded into a cleared proxy from starts[i] and leaves
      ends[i], where a comma stands in front of the next element and a bracket behind the last. */
  ghost predicate Row(t: Type, s: string, vs: seq<Value>, rest: string, starts: seq<string>, ends: seq<string>) {
    && |vs| == |starts| == |ends| > 0 && starts[0] == s
    && (forall i :: 0 <= i < |vs| ==> LoadAt(t, Default(t), starts[i]) == Ok(vs[i], ends[i]))
    && (forall i :: 0 <= i < |vs| - 1 ==> Lex(ends[i]) == Lexed(Comma, starts[i + 1]))
    && Lex(ends[|vs| - 1]) == Lexed(SquareR, rest)
  }

  ghost predicate IsRow(t: Type, s: string, vs: seq<Value>, rest: string) {
    exists starts, ends :: Row(t, s, vs, rest, starts, ends)
  }

  lemma RowStep(t: Type, s: string, vs: seq<Value>, rest: string)
    ensures var r := LoadAt(t, Default(t), s);
      IsRow(t, s, vs, rest) <==>
        && vs != [] && r.Ok? && r.value == vs[0]
        && if |vs| == 1 then Lex(r.rest) == Lexed(SquareR, rest)
           else Lex(r.rest).token == Comma && IsRow(t, Lex(r.rest).rest, vs[1..], rest)
  {
    hide LoadAt, Lex, Default;
    var r := LoadAt(t, Default(t), s);
    if IsRow(t, s, vs, rest) {
      var starts, ends :| Row(t, s, vs, rest, starts, ends);
      if |vs| > 1 { assert Row(t, Lex(r.rest).rest, vs[1..], rest, starts[1..], ends[1..]); }
    }
    if vs != [] && r.Ok? && r.value == vs[0] {
      if |vs| == 1 && Lex(r.rest) == Lexed(SquareR, rest) {
        assert Row(t, s, vs, rest, [s], [r.rest]);
      }
      if |vs| > 1 && Lex(r.rest).token == Comma && IsRow(t, Lex(r.rest).rest, vs[1..], rest) {
        var starts, ends :| Row(t, Lex(r.rest).rest, vs[1..], rest, starts, ends);
        RowGrows(t, s, vs, rest, starts, ends);
      }
    }
  }

  lemma RowGrows(t: Type, s: string, vs: seq<Value>, rest: string, starts: seq<string>, ends: seq<string>)
    requires |vs| > 1 && LoadAt(t, Default(t), s).Ok? && LoadAt(t, Default(t), s).value == vs[0]
    requires var end := LoadAt(t, Default(t), s).rest;
      Lex(end).token == Comma && Row(t, Lex(end).rest, vs[1..], rest, starts, ends)
    ensures IsRow(t, s, vs, rest)
  {
    hide LoadAt, Lex, Default;
    var starts', ends' := [s] + starts, [LoadAt(t, Default(t), s).rest] + ends;
    forall i | 0 <= i < |vs|
      ensures LoadAt(t, Default(t), starts'[i]) == Ok(vs[i], ends'[i])
    {
      if i > 0 {
        assert vs[1..][i - 1] == vs[i];
        assert LoadAt(t, Default(t), starts[i - 1]) == Ok(vs[1..][i - 1], ends[i - 1]);
      }
    }
    forall i | 0 <= i < |vs| - 1
      ensures Lex(ends'[i]) == Lexed(Comma, starts'[i + 1])
    {
      if i > 0 { assert Lex(ends[i - 1]) == Lexed(Comma, starts[i - 1 + 1]); }
    }
    assert Row(t, s, vs, rest, starts', ends');
  }

  /** Loading goes on with the element that starts at s. */
  lemma {:induction false} ArrayFrom(ty: Type, held: seq<Value>, s: string, items: seq<Value>, rest: string)
    requires ty.ArrayType?
    ensures LoadArray(ty, held, Lex(s).token, Lex(s).rest) == Ok(ListVal(items), rest) <==>
      held <= items && IsRow(ty.element, s, items[|held|..], rest)
    decreases |s|
  {
    hide Lex, IsRow, Default, Load;
    var r := LoadAt(ty.element, Default(ty.element), s);
    ArrayUnfolds(ty, held, s);
    if held <= items { RowStep(ty.element, s, items[|held|..], rest); }
    if r.Ok? {
      OneMoreHeld(held, r.value, items);
      if Lex(r.rest).token == Comma {
        ArrayFrom(ty, held + [r.value], Lex(r.rest).rest, items, rest);
        NoEmptyRow(ty.element, Lex(r.rest).rest, rest);
      }
    }
  }

  lemma NoEmptyRow(t: Type, s: string, rest: string)
    ensures !IsRow(t, s, [], rest)
  {
  }

  lemma OneMoreHeld(held: seq<Value>, v: Value, items: seq<Value>)
    ensures held + [v] <= items <==> held <= items && |held| < |items| && items[|held|..][0] == v
    ensures held + [v] <= items ==> items[|held|..][1..] == items[|held + [v]|..]
    ensures items == held + [v] <==> held <= items && |items[|held|..]| == 1 && items[|held|..][0] == v
  {
    if held <= items && |held| < |items| && items[|held|..][0] == v {
      assert items[..|held| + 1] == held + [v];
    }
    if held <= items && |items[|held|..]| == 1 && items[|held|..][0] == v { assert items == held + [v]; }
  }

  lemma ArrayUnfolds(ty: Type, held: seq<Value>, s: string)
    requires ty.ArrayType?
    ensures var r := LoadAt(ty.element, Default(ty.element), s);
      LoadArray(ty, held, Lex(s).token, Lex(s).rest) ==
      if r.Err? then Err
      else if Lex(r.rest).token == Comma then
        var p := Lex(r.rest).rest;
        LoadArray(ty, held + [r.value], Lex(p).token, Lex(p).rest)
      else if Lex(r.rest).token == SquareR then Ok(ListVal(held + [r.value]), Lex(r.rest).rest)
      else Err
    ensures var r := LoadAt(ty.element, Default(ty.element), s);
      r.Ok? && Lex(r.rest).token == Comma ==> |Lex(r.rest).rest| < |s|
  {
    hide Lex, Load;
  }

  /** What loads as an array is brackets with nothing in between, or a row of elements; they are
      added to what the proxy holds. */
  lemma ArrayLoads(t: Type, cur: Value, s: string, items: seq<Value>, rest: string)
    ensures LoadAt(ArrayType(t), cur, s) == Ok(ListVal(items), rest) <==>
      && Lex(s).token == SquareL
      && var behind, held := Lex(s).rest, ItemsIn(cur);
         || (Lex(behind) == Lexed(SquareR, rest) && items == held)
         || (held <= items && IsRow(t, behind, items[|held|..], rest))
  {
    hide Lex, IsRow, LoadArray, ItemsIn;
    var held, behind := ItemsIn(cur), Lex(s).rest;
    ArrayFrom(ArrayType(t), held, behind, items, rest);
    RowStep(t, behind, if held <= items then items[|held|..] else [], rest);
    BracketIsNoValue(t, Default(t), Lex(behind).rest);
  }

  // ---- structs ----

  /** A member that has been read: its place in the struct, its value and the text behind it. */
  datatype Loading = Loading(place: nat, value: Value, end: string)

  /** From s on stand these members, each with its name and a colon in front of its value, with
      commas in between and a bracket behind.  A value is loaded into what the struct holds. */
  ghost predicate Members(ms: seq<Member>, held: seq<Value>, s: string, ls: seq<Loading>, items: seq<Value>, rest: string)
    requires |held| == |ms|
    decreases |ls|
  {
    && ls != [] && ls[0].place < |ms|
    && var m, now := ms[ls[0].place], held[ls[0].place := ls[0].value];
    && Lex(s).token == Str(m.name) && (forall k :: 0 <= k < ls[0].place ==> ms[k].name != m.name)
    && Lex(Lex(s).rest).token == Colon
    && LoadAt(m.ty, held[ls[0].place], Lex(Lex(s).rest).rest) == Ok(ls[0].value, ls[0].end)
    && if |ls| == 1 then items == now && Lex(ls[0].end) == Lexed(CurlyR, rest)
       else Lex(ls[0].end).token == Comma && Members(ms, now, Lex(ls[0].end).rest, ls[1..], items, rest)
  }

  ghost predicate AreMembers(ms: seq<Member>, held: seq<Value>, s: string, items: seq<Value>, rest: string)
    requires |held| == |ms|
  {
    exists ls: seq<Loading> :: Members(ms, held, s, ls, items, rest)
  }

  lemma {:induction false} FindIs(ms: seq<Member>, name: string)
    ensures var i := Find(ms, name);
      && (forall k :: 0 <= k < i ==> ms[k].name != name)
      && (i < |ms| ==> ms[i].name == name)
  {
    if ms != [] && ms[0].name != name {
      FindIs(ms[1..], name);
      assert forall k :: 0 < k < |ms| ==> ms[k] == ms[1..][k - 1];
    }
  }

  lemma MembersStep(ms: seq<Member>, held: seq<Value>, s: string, items: seq<Value>, rest: string)
    requires |held| == |ms|
    ensures AreMembers(ms, held, s, items, rest) <==>
      && Lex(s).token.Str? && Lex(Lex(s).rest).token == Colon
      && var i := Find(ms, Lex(s).token.str);
      && i < |ms|
      && var r := LoadAt(ms[i].ty, held[i], Lex(Lex(s).rest).rest);
      && r.Ok?
      && if Lex(r.rest).token == Comma then AreMembers(ms, held[i := r.value], Lex(r.rest).rest, items, rest)
         else items == held[i := r.value] && Lex(r.rest) == Lexed(CurlyR, rest)
  {
    hide LoadAt, Lex, Find;
    if Lex(s).token.Str? { FindIs(ms, Lex(s).token.str); }
    if AreMembers(ms, held, s, items, rest) {
      var ls: seq<Loading> :| Members(ms, held, s, ls, items, rest);
      var i, j := Find(ms, Lex(s).token.str), ls[0].place;
      assert i <= j;
      assert i == j;
      if |ls| > 1 { assert Members(ms, held[i := ls[0].value], Lex(ls[0].end).rest, ls[1..], items, rest); }
    }
    if Lex(s).token.Str? && Lex(Lex(s).rest).token == Colon && Find(ms, Lex(s).token.str) < |ms| {
      var i := Find(ms, Lex(s).token.str);
      var r := LoadAt(ms[i].ty, held[i], Lex(Lex(s).rest).rest);
      if r.Ok? {
        var l := Loading(i, r.value, r.rest);
        if Lex(r.rest).token == Comma {
          if AreMembers(ms, held[i := r.value], Lex(r.rest).rest, items, rest) {
            var ls: seq<Loading> :| Members(ms, held[i := r.value], Lex(r.rest).rest, ls, items, rest);
            assert ([l] + ls)[1..] == ls;
            assert Members(ms, held, s, [l] + ls, items, rest);
          }
        } else if items == held[i := r.value] && Lex(r.rest) == Lexed(CurlyR, rest) {
          assert Members(ms, held, s, [l], items, rest);
        }
      }
    }
  }

  lemma MembersUnfold(ty: Type, held: seq<Value>, s: string)
    requires ty.StructType? && |held| == |ty.members|
    ensures LoadMembers(ty, held, Lex(s).token, Lex(s).rest) ==
      if !Lex(s).token.Str? || Lex(Lex(s).rest).token != Colon || Find(ty.members, Lex(s).token.str) == |ty.members| then Err
      else
        var i := Find(ty.members, Lex(s).token.str);
        var r := LoadAt(ty.members[i].ty, held[i], Lex(Lex(s).rest).rest);
        if r.Err? then Err
        else if Lex(r.rest).token == Comma then
          var p := Lex(r.rest).rest;
          LoadMembers(ty, held[i := r.value], Lex(p).token, Lex(p).rest)
        else if Lex(r.rest).token == CurlyR then Ok(ListVal(held[i := r.value]), Lex(r.rest).rest)
        else Err
  {
    hide Lex, Load, Find;
  }

  lemma {:induction false} MembersFrom(ty: Type, held: seq<Value>, s: string, items: seq<Value>, rest: string)
    requires ty.StructType? && |held| == |ty.members|
    ensures LoadMembers(ty, held, Lex(s).token, Lex(s).rest) == Ok(ListVal(items), rest) <==>
      AreMembers(ty.members, held, s, items, rest)
    decreases |s|
  {
    hide Lex, AreMembers, Find, LoadAt;
    MembersUnfold(ty, held, s);
    MembersStep(ty.members, held, s, items, rest);
    if Lex(s).token.Str? && Lex(Lex(s).rest).token == Colon && Find(ty.members, Lex(s).token.str) < |ty.members| {
      var i := Find(ty.members, Lex(s).token.str);
      var r := LoadAt(ty.members[i].ty, held[i], Lex(Lex(s).rest).rest);
      if r.Ok? && Lex(r.rest).token == Comma {
        LessIsLeft(s, ty.members[i].ty, held[i]);
        MembersFrom(ty, held[i := r.value], Lex(r.rest).rest, items, rest);
      }
    }
  }

  /** Behind a name, a colon, a value and a comma there is less to read. */
  lemma LessIsLeft(s: string, ty: Type, cur: Value)
    requires Lex(s).token.Str?
    ensures var r := LoadAt(ty, cur, Lex(Lex(s).rest).rest); r.Ok? ==> |Lex(r.rest).rest| < |s|
  {
    hide Lex, Load;
  }

  predicate Unnamed(ls: seq<Loading>, i: nat) {
    forall k :: 0 <= k < |ls| ==> ls[k].place != i
  }

  /** A member that is not named keeps its value, and one that is named has the last one read. */
  lemma {:induction false} MembersGive(ms: seq<Member>, held: seq<Value>, s: string, ls: seq<Loading>,
                                      items: seq<Value>, rest: string)
    requires |held| == |ms| && Members(ms, held, s, ls, items, rest)
    ensures |items| == |ms| && forall k :: 0 <= k < |ls| ==> ls[k].place < |ms|
    ensures forall i :: 0 <= i < |ms| && Unnamed(ls, i) ==> items[i] == held[i]
    ensures forall k :: 0 <= k < |ls| && Unnamed(ls[k + 1..], ls[k].place) ==> items[ls[k].place] == ls[k].value
    decreases |ls|
  {
    hide Lex, LoadAt;
    if |ls| > 1 {
      var now := held[ls[0].place := ls[0].value];
      MembersGive(ms, now, Lex(ls[0].end).rest, ls[1..], items, rest);
      forall i | 0 <= i < |ms| && Unnamed(ls, i)
        ensures items[i] == held[i]
      {
        assert Unnamed(ls[1..], i);
      }
      forall k | 0 <= k < |ls| && Unnamed(ls[k + 1..], ls[k].place)
        ensures items[ls[k].place] == ls[k].value
      {
        if k > 0 { assert ls[1..][k - 1] == ls[k] && ls[1..][k..] == ls[k + 1..]; }
      }
    }
  }

  /** What loads as a struct is brackets with nothing in between, or members of it: those left out
      keep what the proxy holds, and one named twice has its last value. */
  lemma StructLoads(ms: seq<Member>, cur: Value, s: string, items: seq<Value>, rest: string)
    ensures LoadAt(StructType(ms), cur, s) == Ok(ListVal(items), rest) <==>
      && Lex(s).token == CurlyL
      && var behind, held := Lex(s).rest, HeldMembers(ms, cur);
         || (Lex(behind) == Lexed(CurlyR, rest) && items == held)
         || AreMembers(ms, held, behind, items, rest)
  {
    hide Lex, AreMembers, HeldMembers, LoadMembers;
    var held, behind := HeldMembers(ms, cur), Lex(s).rest;
    MembersFrom(StructType(ms), held, behind, items, rest);
    MembersStep(ms, held, behind, items, rest);
    StructOpens(ms, cur, s);
  }

  lemma StructOpens(ms: seq<Member>, cur: Value, s: string)
    ensures LoadAt(StructType(ms), cur, s) ==
      if Lex(s).token != CurlyL then Err
      else
        var behind, held := Lex(s).rest, HeldMembers(ms, cur);
        if Lex(behind).token == CurlyR then Ok(ListVal(held), Lex(behind).rest)
        else LoadMembers(StructType(ms), held, Lex(behind).token, Lex(behind).rest)
  {
    hide Lex, HeldMembers, LoadMembers;
  }

  /** Members that a text leaves out are zero, false or empty after json_load. */
  lemma LeftOutIsCleared(ms: seq<Member>, held: seq<Value>, s: string, ls: seq<Loading>, items: seq<Value>, rest: string)
    requires Lex(s).token == CurlyL && held == HeldMembers(ms, Default(StructType(ms)))
    requires Members(ms, held, Lex(s).rest, ls, items, rest)
    ensures JsonLoad(StructType(ms), s) == Ok(ListVal(items), rest) && |items| == |ms|
    ensures forall i :: 0 <= i < |ms| && Unnamed(ls, i) ==> IsCleared(ms[i].ty, items[i])
  {
    hide Lex, Load, IsCleared, Members, Default, HeldMembers, JsonLoad, Unnamed;
    MembersLoad(ms, s, ls, items, rest);
    ClearedMembers(ms);
    MembersGive(ms, held, Lex(s).rest, ls, items, rest);
  }

  lemma MembersLoad(ms: seq<Member>, s: string, ls: seq<Loading>, items: seq<Value>, rest: string)
    requires Lex(s).token == CurlyL
    requires Members(ms, HeldMembers(ms, Default(StructType(ms))), Lex(s).rest, ls, items, rest)
    ensures JsonLoad(StructType(ms), s) == Ok(ListVal(items), rest)
  {
    hide Lex, Load, Members, Default, HeldMembers;
    StructLoads(ms, Default(StructType(ms)), s, items, rest);
  }

  /** And all of them are after an empty text. */
  lemma EmptyIsCleared(ms: seq<Member>, s: string, rest: string)
    requires Lex(s).token == CurlyL && Lex(Lex(s).rest) == Lexed(CurlyR, rest)
    ensures var l := JsonLoad(StructType(ms), s);
      l.Ok? && l.rest == rest && IsCleared(StructType(ms), l.value)
  {
    hide Lex, Load, Default, HeldMembers;
    StructLoads(ms, Default(StructType(ms)), s, HeldMembers(ms, Default(StructType(ms))), rest);
    ClearedMembers(ms);
  }

  lemma ClearedMembers(ms: seq<Member>)
    ensures forall i :: 0 <= i < |ms| ==> IsCleared(ms[i].ty, HeldMembers(ms, Default(StructType(ms)))[i])
  {
    hide IsCleared;
    forall i | 0 <= i < |ms|
      ensures IsCleared(ms[i].ty, HeldMembers(ms, Default(StructType(ms)))[i])
    {
      DefaultIsCleared(ms[i].ty);
    }
  }

  // ---- dicts ----

  /** A key as it is read from its string. */
  predicate IsKey(ty: Type, text: string, key: Value) {
    match ty
    case StrType => key == StrVal(text)
    case BinType => BinOf(Str(text), "") == Ok(key, "")
    case _ => LoadAt(ty, Default(ty), text).Ok? && LoadAt(ty, Default(ty), text).value == key
  }

  /** From s on stand these entries, each a string for the key and a colon in front of the value,
      with commas in between and a bracket behind. */
  ghost predicate Entries(kt: Type, vt: Type, s: string, es: seq<Entry>, rest: string)
    decreases |es|
  {
    && es != [] && Lex(s).token.Str? && IsKey(kt, Lex(s).token.str, es[0].key)
    && Lex(Lex(s).rest).token == Colon
    && var r := LoadAt(vt, Default(vt), Lex(Lex(s).rest).rest);
       && r.Ok? && r.value == es[0].value
       && if |es| == 1 then Lex(r.rest) == Lexed(CurlyR, rest)
          else Lex(r.rest).token == Comma && Entries(kt, vt, Lex(r.rest).rest, es[1..], rest)
  }

  function AssignedAll(held: seq<Entry>, es: seq<Entry>): seq<Entry>
    decreases |es|
  {
    if es == [] then held else AssignedAll(Assigned(held, es[0].key, es[0].value), es[1..])
  }

  ghost predicate AreEntries(kt: Type, vt: Type, held: seq<Entry>, s: string, entries: seq<Entry>, rest: string) {
    exists es: seq<Entry> :: Entries(kt, vt, s, es, rest) && entries == AssignedAll(held, es)
  }

  lemma KeyIs(ty: Type, text: string, key: Value)
    ensures LoadKey(ty, text).Ok? && LoadKey(ty, text).value == key <==> IsKey(ty, text, key)
  {
    hide Lex, Load, Default;
  }

  lemma EntriesInFront(kt: Type, vt: Type, held: seq<Entry>, s: string, entries: seq<Entry>, rest: string)
    requires Lex(s).token.Str? && Lex(Lex(s).rest).token == Colon
    requires LoadKey(kt, Lex(s).token.str).Ok? && LoadAt(vt, Default(vt), Lex(Lex(s).rest).rest).Ok?
    requires var k, r := LoadKey(kt, Lex(s).token.str), LoadAt(vt, Default(vt), Lex(Lex(s).rest).rest);
      var now := Assigned(held, k.value, r.value);
      if Lex(r.rest).token == Comma then AreEntries(kt, vt, now, Lex(r.rest).rest, entries, rest)
      else entries == now && Lex(r.rest) == Lexed(CurlyR, rest)
    ensures AreEntries(kt, vt, held, s, entries, rest)
  {
    hide LoadAt, Lex, Default, LoadKey, IsKey, Assigned;
    var k, r := LoadKey(kt, Lex(s).token.str), LoadAt(vt, Default(vt), Lex(Lex(s).rest).rest);
    var e, now := Entry(k.value, r.value), Assigned(held, k.value, r.value);
    KeyIs(kt, Lex(s).token.str, k.value);
    var es: seq<Entry> := [];
    if Lex(r.rest).token == Comma {
      es :| Entries(kt, vt, Lex(r.rest).rest, es, rest) && entries == AssignedAll(now, es);
    } else {
      assert AssignedAll(now, es) == now;
    }
    assert ([e] + es)[1..] == es;
    assert Entries(kt, vt, s, [e] + es, rest) && AssignedAll(held, [e] + es) == AssignedAll(now, es);
  }

  lemma EntriesStep(kt: Type, vt: Type, held: seq<Entry>, s: string, entries: seq<Entry>, rest: string)
    ensures AreEntries(kt, vt, held, s, entries, rest) <==>
      && Lex(s).token.Str? && Lex(Lex(s).rest).token == Colon
      && var k, r := LoadKey(kt, Lex(s).token.str), LoadAt(vt, Default(vt), Lex(Lex(s).rest).rest);
      && k.Ok? && r.Ok?
      && var now := Assigned(held, k.value, r.value);
         if Lex(r.rest).token == Comma then AreEntries(kt, vt, now, Lex(r.rest).rest, entries, rest)
         else entries == now && Lex(r.rest) == Lexed(CurlyR, rest)
  {
    hide LoadAt, Lex, Default, LoadKey, IsKey, Assigned;
    if AreEntries(kt, vt, held, s, entries, rest) {
      var es: seq<Entry> :| Entries(kt, vt, s, es, rest) && entries == AssignedAll(held, es);
      KeyIs(kt, Lex(s).token.str, es[0].key);
      var now := Assigned(held, es[0].key, es[0].value);
      assert entries == AssignedAll(now, es[1..]);
      if |es| == 1 {
        assert es[1..] == [] && AssignedAll(now, []) == now;
      } else {
        var end := LoadAt(vt, Default(vt), Lex(Lex(s).rest).rest).rest;
        assert Entries(kt, vt, Lex(end).rest, es[1..], rest);
      }
    } else if Lex(s).token.Str? && Lex(Lex(s).rest).token == Colon {
      var k, r := LoadKey(kt, Lex(s).token.str), LoadAt(vt, Default(vt), Lex(Lex(s).rest).rest);
      if k.Ok? && r.Ok? {
        var now := Assigned(held, k.value, r.value);
        if if Lex(r.rest).token == Comma then AreEntries(kt, vt, now, Lex(r.rest).rest, entries, rest)
           else entries == now && Lex(r.rest) == Lexed(CurlyR, rest) {
          EntriesInFront(kt, vt, held, s, entries, rest);
        }
      }
    }
  }

  lemma EntriesUnfold(ty: Type, held: seq<Entry>, s: string)
    requires ty.DictType?
    ensures LoadEntries(ty, held, Lex(s).token, Lex(s).rest) ==
      if !Lex(s).token.Str? || Lex(Lex(s).rest).token != Colon then Err
      else
        var k, r := LoadKey(ty.key, Lex(s).token.str), LoadAt(ty.value, Default(ty.value), Lex(Lex(s).rest).rest);
        if k.Err? || r.Err? then Err
        else if Lex(r.rest).token == Comma then
          var p := Lex(r.rest).rest;
          LoadEntries(ty, Assigned(held, k.value, r.value), Lex(p).token, Lex(p).rest)
        else if Lex(r.rest).token == CurlyR then Ok(DictVal(Assigned(held, k.value, r.value)), Lex(r.rest).rest)
        else Err
  {
    hide Lex, Load, LoadKey, Assigned;
  }

  lemma {:induction false} EntriesFrom(ty: Type, held: seq<Entry>, s: string, entries: seq<Entry>, rest: string)
    requires ty.DictType?
    ensures LoadEntries(ty, held, Lex(s).token, Lex(s).rest) == Ok(DictVal(entries), rest) <==>
      AreEntries(ty.key, ty.value, held, s, entries, rest)
    decreases |s|
  {
    hide Lex, AreEntries, LoadKey, LoadAt, Assigned, Default;
    EntriesUnfold(ty, held, s);
    EntriesStep(ty.key, ty.value, held, s, entries, rest);
    if Lex(s).token.Str? && Lex(Lex(s).rest).token == Colon {
      var k, r := LoadKey(ty.key, Lex(s).token.str), LoadAt(ty.value, Default(ty.value), Lex(Lex(s).rest).rest);
      if k.Ok? && r.Ok? && Lex(r.rest).token == Comma {
        LessIsLeft(s, ty.value, Default(ty.value));
        EntriesFrom(ty, Assigned(held, k.value, r.value), Lex(r.rest).rest, entries, rest);
      }
    }
  }

  /** What loads as a dict is brackets with nothing in between, or entries, which are assigned one
      after the other to what the proxy holds. */
  lemma DictLoads(kt: Type, vt: Type, cur: Value, s: string, entries: seq<Entry>, rest: string)
    ensures LoadAt(DictType(kt, vt), cur, s) == Ok(DictVal(entries), rest) <==>
      && Lex(s).token == CurlyL
      && var behind := Lex(s).rest;
         || (Lex(behind) == Lexed(CurlyR, rest) && entries == EntriesIn(cur))
         || AreEntries(kt, vt, EntriesIn(cur), behind, entries, rest)
  {
    hide Lex, AreEntries, LoadEntries, EntriesIn;
    EntriesFrom(DictType(kt, vt), EntriesIn(cur), Lex(s).rest, entries, rest);
    EntriesStep(kt, vt, EntriesIn(cur), Lex(s).rest, entries, rest);
  }

  ghost predicate KeysDiffer(es: seq<Entry>) {
    forall i, j :: 0 <= i < j < |es| ==> es[i].key != es[j].key
  }

  lemma {:induction false} AssignedGives(held: seq<Entry>, key: Value, value: Value)
    requires KeysDiffer(held)
    ensures var r := Assigned(held, key, value);
      KeysDiffer(r) && forall e :: e in r <==> e == Entry(key, value) || (e in held && e.key != key)
  {
    var r := Assigned(held, key, value);
    if held != [] {
      if held[0].key != key {
        AssignedGives(held[1..], key, value);
        assert held == [held[0]] + held[1..] && r == [held[0]] + Assigned(held[1..], key, value);
      } else {
        assert held == [held[0]] + held[1..] && r == [Entry(key, value)] + held[1..];
      }
    }
  }

  /** e is one of es, and none behind it has its key. */
  ghost predicate LastOf(es: seq<Entry>, e: Entry) {
    exists k :: 0 <= k < |es| && es[k] == e && Unassigned(es[k + 1..], e.key)
  }

  predicate Unassigned(es: seq<Entry>, key: Value) {
    forall k :: 0 <= k < |es| ==> es[k].key != key
  }

  lemma LastInFront(es: seq<Entry>, e: Entry)
    requires es != []
    ensures Unassigned(es, e.key) <==> es[0].key != e.key && Unassigned(es[1..], e.key)
    ensures LastOf(es, e) <==> LastOf(es[1..], e) || (e == es[0] && Unassigned(es[1..], e.key))
  {
    assert forall k :: 0 < k < |es| ==> es[k] == es[1..][k - 1];
    if LastOf(es, e) {
      var k :| 0 <= k < |es| && es[k] == e && Unassigned(es[k + 1..], e.key);
      if k > 0 { assert es[1..][k..] == es[k + 1..] && es[1..][k - 1] == e; }
    }
    if LastOf(es[1..], e) {
      var k :| 0 <= k < |es| - 1 && es[1..][k] == e && Unassigned(es[1..][k + 1..], e.key);
      assert es[k + 2..] == es[1..][k + 1..] && es[k + 1] == e;
    }
  }

  /** Of several entries with the same key the last one is in the dict, and what was held stays
      unless its key is assigned again. */
  lemma {:induction false} LastIsAssigned(held: seq<Entry>, es: seq<Entry>)
    requires KeysDiffer(held)
    ensures KeysDiffer(AssignedAll(held, es))
    ensures forall e :: e in AssignedAll(held, es) <==> LastOf(es, e) || (e in held && Unassigned(es, e.key))
    decreases |es|
  {
    hide Assigned, KeysDiffer;
    if es != [] {
      var now := Assigned(held, es[0].key, es[0].value);
      AssignedGives(held, es[0].key, es[0].value);
      LastIsAssigned(now, es[1..]);
      forall e
        ensures e in AssignedAll(held, es) <==> LastOf(es, e) || (e in held && Unassigned(es, e.key))
      {
        LastInFront(es, e);
      }
    }
  }

  // ---- pairs and single values ----

  /** What loads as a pair is brackets with its two elements in between and a comma between these. */
  lemma PairLoads(a: Type, b: Type, cur: Value, s: string, v: Value, w: Value, rest: string)
    ensures LoadAt(PairType(a, b), cur, s) == Ok(ListVal([v, w]), rest) <==>
      && Lex(s).token == SquareL
      && var r := LoadAt(a, ItemIn(cur, 0, a), Lex(s).rest);
         && r.Ok? && r.value == v && Lex(r.rest).token == Comma
         && var r' := LoadAt(b, ItemIn(cur, 1, b), Lex(r.rest).rest);
            r'.Ok? && r'.value == w && Lex(r'.rest) == Lexed(SquareR, rest)
    ensures LoadAt(PairType(a, b), cur, s).Ok? ==>
      var l := LoadAt(PairType(a, b), cur, s).value; l.ListVal? && |l.items| == 2 && l == ListVal([l.items[0], l.items[1]])
  {
    hide Lex, ItemIn;
  }

  /** A number, a word or a string loads as the value it is read as, whatever the proxy held, and
      nothing else does. */
  lemma SingleLoads(cur: Value, s: string, v: Value, rest: string)
    ensures LoadAt(IntType, cur, s) == Ok(v, rest) <==> v.IntVal? && Lex(s) == Lexed(Int(v.i), rest)
    ensures LoadAt(BoolType, cur, s) == Ok(v, rest) <==>
      v.BoolVal? && Lex(s) == Lexed(if v.b then TrueWord else FalseWord, rest)
    ensures LoadAt(StrType, cur, s) == Ok(v, rest) <==> v.StrVal? && Lex(s) == Lexed(Str(v.s), rest)
    ensures LoadAt(BinType, cur, s).Ok? <==> Lex(s).token.Str?
  {
    hide Lex;
  }

  /** What the last letters stand for with zeros where there are none; 'A' is a zero. */
  function LastBytes(last: string): seq<Bytes.Byte>
    requires |last| < 4
  {
    if last == "" then [] else Base64.Rfc4648Bytes(last + ['A', 'A', 'A'][..4 - |last|])
  }

  /** The letters that a last group of base64 text lacks count as zeros. */
  lemma BinLoads(cur: Value, s: string, groups: string, last: string, rest: string)
    requires Lex(s) == Lexed(Str(groups + last), rest) && |groups| % 4 == 0 && |last| < 4
    ensures LoadAt(BinType, cur, s) == Ok(BinVal(Base64.Decode(groups) + LastBytes(last)), rest)
  {
    hide Lex, Base64.Decode, LastBytes, Padded;
    LettersDecode(groups, last);
  }

  lemma LettersDecode(groups: string, last: string)
    requires |groups| % 4 == 0 && |last| < 4
    ensures Base64.Decode(Padded(groups + last)) == Base64.Decode(groups) + LastBytes(last)
  {
    hide Base64.Decode, Base64.DecodeGroup, Base64.Rfc4648Bytes;
    if last == "" {
      assert groups + last == groups && Padded(groups) == groups;
      assert Base64.Decode(groups) + [] == Base64.Decode(groups);
    } else {
      hide Padded;
      var group := last + seq(4 - |last|, _ => 0 as char);
      FilledUp(groups, last);
      Base64.DecodesInGroups(groups, group);
      Base64.FourLetters(group);
      Base64.GroupIsDecoded(group);
      ZerosCountAsNothing(last);
    }
  }

  lemma FilledUp(groups: string, last: string)
    requires |groups| % 4 == 0 && 0 < |last| < 4
    ensures Padded(groups + last) == groups + (last + seq(4 - |last|, _ => 0 as char))
  {
    assert |groups + last| % 4 == |last|;
  }

  lemma ZerosCountAsNothing(last: string)
    requires 0 < |last| < 4
    ensures Base64.Rfc4648Bytes(last + seq(4 - |last|, _ => 0 as char)) == Base64.Rfc4648Bytes(last + ['A', 'A', 'A'][..4 - |last|])
  {
    var a, b := last + seq(4 - |last|, _ => 0 as char), last + ['A', 'A', 'A'][..4 - |last|];
    assert Base64.Dectab(0 as char) == 0 == Base64.Dectab('A');
    forall i | 0 <= i < 4
      ensures Base64.Dectab(a[i]) == Base64.Dectab(b[i]) && (a[i] == '=' <==> b[i] == '=')
    {
      if i >= |last| { assert a[i] == 0 as char && b[i] == 'A'; }
    }
  }

  /** json_load loads into a cleared proxy, and never anything from a text without a token. */
  lemma LoadsAnew(ty: Type, s: string) returns (cur: Value)
    ensures IsCleared(ty, cur) && JsonLoad(ty, s) == LoadAt(ty, cur, s)
    ensures Lex(s).token == NoToken ==> JsonLoad(ty, s) == Err
  {
    hide Lex, Default;
    cur := Default(ty);
    DefaultIsCleared(ty);
  }
}
