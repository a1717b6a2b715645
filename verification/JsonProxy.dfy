/** The proxies of src/c7json/proxy.cpp and src/c7json/proxy.hpp at work: dumping through the
    indentation helper, loading through the lexer. */
module JsonProxy {
  import opened JsonLex
  import opened JsonLexer
  import opened JsonValue
  import opened Bytes
  import Base64

  // ---- the indentation helper ----

  function Resized(s: string, n: nat): string {
    if n <= |s| then s[..n] else s + Spaces(n - |s|)
  }

  /** Which text pref points to. */
  datatype Pointer = Unset | ToHead | ToNext

  class DumpHelper {
    var indent: nat
    var curIndent: nat
    var head: string
    var next: string
    var pref: Pointer

    /** Whatever its depth, a line's beginning is a line feed and spaces. */
    ghost predicate Ready()
      reads this
    {
      indent > 0 ==>
        && |head| >= 1 && head == "\n" + Spaces(|head| - 1)
        && |next| >= 2 && next == ",\n" + Spaces(|next| - 2)
    }

    /** Between begin and end both texts are those of the current depth. */
    ghost predicate Inside()
      reads this
    {
      head == Head(indent, curIndent) && next == Pref(false, indent, curIndent)
    }

    constructor (indent: nat, curIndent: nat)
      ensures Ready() && this.indent == indent && this.curIndent == curIndent && pref == Unset
    {
      this.indent, this.curIndent := indent, curIndent;
      head, next, pref := "\n", ",\n", Unset;
    }

    method Begin(o: string, c: char) returns (o': string)
      requires Ready()
      modifies this
      ensures indent == old(indent) && curIndent == old(curIndent) + indent
      ensures Ready() && Inside() && pref == ToHead && o' == o + [c]
    {
      o' := o + [c];
      if indent != 0 {
        curIndent := curIndent + indent;
        head := Resized(head, curIndent + 1);
        next := Resized(next, curIndent + 2);
        assert Pref(false, indent, curIndent) == ",\n" + Spaces(curIndent);
      } else {
        head := "";
        next := ",";
      }
      pref := ToHead;
    }

    method Prefix() returns (s: string)
      requires pref != Unset
      modifies `pref
      ensures s == (if old(pref) == ToHead then head else next) && pref == ToNext
    {
      s := if pref == ToHead then head else next;
      pref := ToNext;
    }

    method End(o: string, c: char) returns (o': string)
      requires Ready() && Inside() && curIndent >= indent
      modifies this
      ensures indent == old(indent) && curIndent == old(curIndent) - indent
      ensures Ready() && Inside() && pref == ToNext
      ensures o' == o + Head(indent, curIndent) + [c]
    {
      o' := o;
      if indent != 0 {
        curIndent := curIndent - indent;
        head := Resized(head, curIndent + 1);
        next := Resized(next, curIndent + 2);
        assert Pref(false, indent, curIndent) == ",\n" + Spaces(curIndent);
        o' := o' + head;
      }
      pref := ToNext;
      o' := o' + [c];
    }
  }

  // ---- dumping ----

  method JsonizeString(o: string, s: string) returns (o': string)
    ensures o' == o + Quoted(s)
  {
    hide EscapedChar, EscapedText;
    o' := o + "\"";
    assert s[..0] == [];
    NothingEscaped();
    for i := 0 to |s|
      invariant o' == o + "\"" + EscapedText(s[..i])
    {
      EscapeOneMore(s[..i], s[i]);
      assert s[..i + 1] == s[..i] + [s[i]];
      o' := o' + EscapedChar(s[i]);
    }
    assert s[..|s|] == s;
    o' := o' + "\"";
    assert o + "\"" + EscapedText(s) + "\"" == o + Quoted(s);
  }

  lemma NothingEscaped()
    ensures EscapedText("") == ""
  {
  }

  lemma {:induction false} EscapeOneMore(s: string, c: char)
    ensures EscapedText(s + [c]) == EscapedText(s) + EscapedChar(c)
  {
    hide EscapedChar;
    if s == [] {
      assert (s + [c])[1..] == [];
    } else {
      EscapeOneMore(s[1..], c);
      assert (s + [c])[1..] == s[1..] + [c];
    }
  }

  method DumpBin(o: string, bytes: seq<Byte>) returns (o': string)
    ensures o' == o + Quoted(Base64.Encode(bytes))
  {
    var s := Base64.CollectEncoded(bytes);
    o' := JsonizeString(o, s);
  }

  /** Where a dump has come to: o grew by text, and the helper is back where it was. */
  twostate predicate Dumped(dh: DumpHelper, o: string, text: string, o': string)
    reads dh
  {
    && o' == o + text
    && dh.Ready() && dh.indent == old(dh.indent) && dh.curIndent == old(dh.curIndent)
    && (old(dh.Inside()) ==> dh.Inside()) && (old(dh.pref) == ToNext ==> dh.pref == ToNext)
  }

  method Dump(ty: Type, v: Value, dh: DumpHelper, o: string) returns (o': string)
    requires HasType(v, ty) && dh.Ready()
    modifies dh
    ensures Dumped(dh, o, Text(ty, v, old(dh.indent), old(dh.curIndent)), o')
    decreases v, 2
  {
    hide Base64.Encode, Quoted, IntText, ItemsText, EntriesText;
    match ty
    case IntType => o' := o + IntText(v.i);
    case BoolType => o' := o + if v.b then "true" else "false";
    case StrType => o' := JsonizeString(o, v.s);
    case BinType => o' := DumpBin(o, v.bytes);
    case DictType(_, _) => o' := DumpDict(ty, v, dh, o);
    case _ => o' := DumpRow(ty, v, dh, o);
  }

  lemma Bracketed(o: string, a: string, b: string, c: string, d: string)
    ensures o + a + b + c + d == o + (a + b + c + d)
  {
  }

  lemma Joined(o: string, a: string, b: string, c: string)
    ensures o + a + b + c == o + (a + b + c)
  {
  }

  method DumpRow(ty: Type, v: Value, dh: DumpHelper, o: string) returns (o': string)
    requires ty.Row() && HasType(v, ty) && dh.Ready()
    modifies dh
    ensures Dumped(dh, o, Text(ty, v, old(dh.indent), old(dh.curIndent)), o')
    decreases v, 1
  {
    hide ItemsText, Head;
    ghost var indent, cur := dh.indent, dh.curIndent;
    o' := dh.Begin(o, Opening(ty));
    o' := DumpItems(ty, v.items, dh, o');
    o' := dh.End(o', Closing(ty));
    Bracketed(o, [Opening(ty)], ItemsText(ty, v.items, 0, indent, cur + indent), Head(indent, cur), [Closing(ty)]);
  }

  method DumpItems(ty: Type, items: seq<Value>, dh: DumpHelper, o: string) returns (o': string)
    requires RowOf(ty, items) && dh.Ready() && dh.Inside() && dh.pref == ToHead
    modifies dh
    ensures o' == o + ItemsText(ty, items, 0, old(dh.indent), old(dh.curIndent))
    ensures dh.Ready() && dh.Inside() && dh.indent == old(dh.indent) && dh.curIndent == old(dh.curIndent)
    decreases items, |items|
  {
    hide ItemText, HasType, Head;
    o' := o;
    ghost var indent, cur := dh.indent, dh.curIndent;
    for i := 0 to |items|
      invariant dh.Ready() && dh.Inside() && dh.indent == indent && dh.curIndent == cur
      invariant dh.pref == if i == 0 then ToHead else ToNext
      invariant o' + ItemsText(ty, items, i, indent, cur) == o + ItemsText(ty, items, 0, indent, cur)
    {
      o' := DumpItem(ty, items, i, dh, o');
    }
  }

  method DumpItem(ty: Type, items: seq<Value>, i: nat, dh: DumpHelper, o: string) returns (o': string)
    requires RowOf(ty, items) && i < |items| && dh.Ready() && dh.Inside()
    requires dh.pref == if i == 0 then ToHead else ToNext
    modifies dh
    ensures o' == o + ItemText(ty, items, i, old(dh.indent), old(dh.curIndent))
    ensures dh.Ready() && dh.Inside() && dh.indent == old(dh.indent) && dh.curIndent == old(dh.curIndent)
    ensures dh.pref == ToNext
    decreases items, 0
  {
    hide Text, Head, Label, HasType;
    ghost var indent, cur := dh.indent, dh.curIndent;
    var pref := dh.Prefix();
    o' := o + pref;
    o' := o' + Label(ty, i);
    o' := Dump(ItemType(ty, i), items[i], dh, o');
    Joined(o, pref, Label(ty, i), Text(ItemType(ty, i), items[i], indent, cur));
  }

  method DumpDict(ty: Type, v: Value, dh: DumpHelper, o: string) returns (o': string)
    requires ty.DictType? && HasType(v, ty) && dh.Ready()
    modifies dh
    ensures Dumped(dh, o, Text(ty, v, old(dh.indent), old(dh.curIndent)), o')
    decreases v, 1
  {
    hide EntriesText, Head;
    ghost var indent, cur := dh.indent, dh.curIndent;
    o' := dh.Begin(o, '{');
    o' := DumpEntries(ty, v.entries, dh, o');
    o' := dh.End(o', '}');
    Bracketed(o, "{", EntriesText(ty, v.entries, 0, indent, cur + indent), Head(indent, cur), "}");
  }

  method DumpEntries(ty: Type, entries: seq<Entry>, dh: DumpHelper, o: string) returns (o': string)
    requires EntriesOf(ty, entries) && dh.Ready() && dh.Inside() && dh.pref == ToHead
    modifies dh
    ensures o' == o + EntriesText(ty, entries, 0, old(dh.indent), old(dh.curIndent))
    ensures dh.Ready() && dh.Inside() && dh.indent == old(dh.indent) && dh.curIndent == old(dh.curIndent)
    decreases entries, |entries|
  {
    hide EntryText, HasType, Head;
    o' := o;
    ghost var indent, cur := dh.indent, dh.curIndent;
    for i := 0 to |entries|
      invariant dh.Ready() && dh.Inside() && dh.indent == indent && dh.curIndent == cur
      invariant dh.pref == if i == 0 then ToHead else ToNext
      invariant o' + EntriesText(ty, entries, i, indent, cur) == o + EntriesText(ty, entries, 0, indent, cur)
    {
      o' := DumpNext(ty, entries, i, dh, o');
    }
  }

  method DumpNext(ty: Type, entries: seq<Entry>, i: nat, dh: DumpHelper, o: string) returns (o': string)
    requires EntriesOf(ty, entries) && i < |entries| && dh.Ready() && dh.Inside()
    requires dh.pref == if i == 0 then ToHead else ToNext
    modifies dh
    ensures o' == o + (Pref(i == 0, old(dh.indent), old(dh.curIndent))
                       + EntryText(ty, entries[i], old(dh.indent), old(dh.curIndent)))
    ensures dh.Ready() && dh.Inside() && dh.indent == old(dh.indent) && dh.curIndent == old(dh.curIndent)
    ensures dh.pref == ToNext
    decreases entries, 0
  {
    hide EntryText, Head;
    var pref := dh.Prefix();
    o' := o + pref;
    o' := DumpEntry(ty, entries[i], dh, o');
  }

  method DumpEntry(ty: Type, e: Entry, dh: DumpHelper, o: string) returns (o': string)
    requires ty.DictType? && HasType(e.key, ty.key) && HasType(e.value, ty.value) && dh.Ready()
    modifies dh
    ensures Dumped(dh, o, EntryText(ty, e, old(dh.indent), old(dh.curIndent)), o')
    decreases e, 0
  {
    hide Text, KeyText;
    o' := DumpKey(ty.key, e.key, dh, o);
    o' := o' + ":";
    o' := Dump(ty.value, e.value, dh, o');
  }

  lemma StringTextIsFlat(ty: Type, v: Value, indent: nat, cur: nat)
    requires IsStringKey(ty) && HasType(v, ty)
    ensures Text(ty, v, indent, cur) == Text(ty, v, 0, 0)
  {
  }

  /** A key that is no string is dumped by a helper of its own, without indentation. */
  method DumpKey(ty: Type, key: Value, dh: DumpHelper, o: string) returns (o': string)
    requires HasType(key, ty) && dh.Ready()
    modifies dh
    ensures Dumped(dh, o, KeyText(ty, key), o')
    decreases key, 3
  {
    hide Text, Quoted;
    if IsStringKey(ty) {
      o' := Dump(ty, key, dh, o);
      StringTextIsFlat(ty, key, old(dh.indent), old(dh.curIndent));
    } else {
      var tmp := new DumpHelper(0, 0);
      var so := Dump(ty, key, tmp, "");
      assert "" + Text(ty, key, 0, 0) == Text(ty, key, 0, 0);
      o' := JsonizeString(o, so);
    }
  }

  // ---- loading ----

  datatype Got = Got(value: Value) | Failed

  /** A load came out as described, with the lexer in front of what is left. */
  ghost predicate Matches(g: Got, r: Loaded, lxr: Lexer)
    reads lxr
  {
    && lxr.Valid()
    && match r
       case Ok(v, rest) => g == Got(v) && lxr.Rest() == rest
       case Err => g == Failed
  }

  method LoadValue(ty: Type, cur: Value, lxr: Lexer, t: Token) returns (g: Got)
    requires lxr.Valid()
    modifies lxr
    ensures Matches(g, Load(ty, cur, t, old(lxr.Rest())), lxr)
    decreases ty, |lxr.Rest()|, 2
  {
    hide LoadTuple, LoadArray, LoadMembers, LoadEntries, Base64.Decode, Padded, Lex;
    match ty
    case IntType => g := if t.Int? then Got(IntVal(t.i64)) else Failed;
    case BoolType =>
      g := if t == TrueWord then Got(BoolVal(true)) else if t == FalseWord then Got(BoolVal(false)) else Failed;
    case StrType => g := if t.Str? then Got(StrVal(t.str)) else Failed;
    case BinType => if t.Str? { g := DecodeBin(t.str); } else { g := Failed; }
    case PairType(_, _) => g := GetPair(ty, cur, lxr, t);
    case TupleType(_) => g := GetTuple(ty, cur, lxr, t);
    case ArrayType(_) => g := GetArray(ty, cur, lxr, t);
    case StructType(_) => g := GetStruct(ty, cur, lxr, t);
    case DictType(_, _) => g := GetDict(ty, cur, lxr, t);
  }

  method DecodeBin(s: string) returns (g: Got)
    ensures g == Got(BinVal(Base64.Decode(Padded(s))))
  {
    var bytes := Base64.CollectDecoded(Padded(s));
    g := Got(BinVal(bytes));
  }

  method GetPair(ty: Type, cur: Value, lxr: Lexer, t: Token) returns (g: Got)
    requires ty.PairType? && lxr.Valid()
    modifies lxr
    ensures Matches(g, Load(ty, cur, t, old(lxr.Rest())), lxr)
    decreases ty, |lxr.Rest()|, 1
  {
    hide Lex;
    if t != SquareL { return Failed; }
    var t1 := lxr.Get();
    var g1 := LoadValue(ty.first, ItemIn(cur, 0, ty.first), lxr, t1);
    if g1.Failed? { return Failed; }
    var comma := lxr.Get();
    if comma != Comma { return Failed; }
    var t2 := lxr.Get();
    var g2 := LoadValue(ty.second, ItemIn(cur, 1, ty.second), lxr, t2);
    if g2.Failed? { return Failed; }
    var end := lxr.Get();
    g := if end == SquareR then Got(ListVal([g1.value, g2.value])) else Failed;
  }

  method GetTuple(ty: Type, cur: Value, lxr: Lexer, t: Token) returns (g: Got)
    requires ty.TupleType? && lxr.Valid()
    modifies lxr
    ensures Matches(g, Load(ty, cur, t, old(lxr.Rest())), lxr)
    decreases ty, |lxr.Rest()|, 1
  {
    hide Lex, LoadTuple;
    if t != SquareL { return Failed; }
    var held := Held(ty.types, cur);
    var t' := lxr.Get();
    if t' == SquareR { return Got(ListVal(held)); }
    g := GetElements(ty, held, 0, lxr, t');
  }

  /** load_elements, which recurses over the index. */
  method GetElements(ty: Type, items: seq<Value>, k: nat, lxr: Lexer, t: Token) returns (g: Got)
    requires ty.TupleType? && k <= |items| == |ty.types| && lxr.Valid()
    modifies lxr
    ensures Matches(g, LoadTuple(ty, items, k, t, old(lxr.Rest())), lxr)
    decreases ty, |lxr.Rest()|, 0, |items| - k
  {
    hide Lex, Load;
    if k == |items| {
      var end := lxr.Get();
      return if end == SquareR then Got(ListVal(items)) else Failed;
    }
    var t' := t;
    if k != 0 {
      t' := lxr.Get();
      if t' != Comma { return Failed; }
      t' := lxr.Get();
    }
    var r := LoadValue(ty.types[k], items[k], lxr, t');
    if r.Failed? { return Failed; }
    g := GetElements(ty, items[k := r.value], k + 1, lxr, t');
  }

  method GetArray(ty: Type, cur: Value, lxr: Lexer, t: Token) returns (g: Got)
    requires ty.ArrayType? && lxr.Valid()
    modifies lxr
    ensures Matches(g, Load(ty, cur, t, old(lxr.Rest())), lxr)
    decreases ty, |lxr.Rest()|, 1
  {
    hide Lex;
    if t != SquareL { return Failed; }
    var vec := ItemsIn(cur);
    var t' := lxr.Get();
    if t' == SquareR { return Got(ListVal(vec)); }
    ghost var want := LoadArray(ty, vec, t', lxr.Rest());
    while true
      invariant lxr.Valid() && |lxr.Rest()| <= |old(lxr.Rest())|
      invariant LoadArray(ty, vec, t', lxr.Rest()) == want
      decreases |lxr.Rest()|
    {
      var r := LoadValue(ty.element, Default(ty.element), lxr, t');
      if r.Failed? { return Failed; }
      vec := vec + [r.value];
      t' := lxr.Get();
      if t' != Comma { break; }
      t' := lxr.Get();
    }
    g := if t' == SquareR then Got(ListVal(vec)) else Failed;
  }

  method GetStruct(ty: Type, cur: Value, lxr: Lexer, t: Token) returns (g: Got)
    requires ty.StructType? && lxr.Valid()
    modifies lxr
    ensures Matches(g, Load(ty, cur, t, old(lxr.Rest())), lxr)
    decreases ty, |lxr.Rest()|, 1
  {
    hide Lex, Find;
    if t != CurlyL { return Failed; }
    var held := HeldMembers(ty.members, cur);
    var t' := lxr.Get();
    if t' == CurlyR { return Got(ListVal(held)); }
    ghost var want := LoadMembers(ty, held, t', lxr.Rest());
    while true
      invariant lxr.Valid() && |lxr.Rest()| <= |old(lxr.Rest())| && |held| == |ty.members|
      invariant LoadMembers(ty, held, t', lxr.Rest()) == want
      decreases |lxr.Rest()|
    {
      if !t'.Str? { return Failed; }
      var i := Find(ty.members, t'.str);
      t' := lxr.Get();
      if t' != Colon { return Failed; }
      t' := lxr.Get();
      if i == |ty.members| { return Failed; }
      var r := LoadValue(ty.members[i].ty, held[i], lxr, t');
      if r.Failed? { return Failed; }
      held := held[i := r.value];
      t' := lxr.Get();
      if t' != Comma { break; }
      t' := lxr.Get();
    }
    g := if t' == CurlyR then Got(ListVal(held)) else Failed;
  }

  method GetDict(ty: Type, cur: Value, lxr: Lexer, t: Token) returns (g: Got)
    requires ty.DictType? && lxr.Valid()
    modifies lxr
    ensures Matches(g, Load(ty, cur, t, old(lxr.Rest())), lxr)
    decreases ty, |lxr.Rest()|, 1
  {
    hide Lex, LoadKey, Assigned;
    if t != CurlyL { return Failed; }
    var dic := EntriesIn(cur);
    var t' := lxr.Get();
    if t' == CurlyR { return Got(DictVal(dic)); }
    ghost var want := LoadEntries(ty, dic, t', lxr.Rest());
    while true
      invariant lxr.Valid() && |lxr.Rest()| <= |old(lxr.Rest())|
      invariant LoadEntries(ty, dic, t', lxr.Rest()) == want
      decreases |lxr.Rest()|
    {
      if !t'.Str? { return Failed; }
      var key := t'.str;
      t' := lxr.Get();
      if t' != Colon { return Failed; }
      t' := lxr.Get();
      var k := GetKey(ty.key, key);
      if k.Failed? { return Failed; }
      var r := LoadValue(ty.value, Default(ty.value), lxr, t');
      if r.Failed? { return Failed; }
      dic := Assigned(dic, k.value, r.value);
      t' := lxr.Get();
      if t' != Comma { break; }
      t' := lxr.Get();
    }
    g := if t' == CurlyR then Got(DictVal(dic)) else Failed;
  }

  /** A key that is no string is loaded from inside its string by a lexer of its own. */
  method GetKey(ty: Type, text: string) returns (g: Got)
    ensures match LoadKey(ty, text)
      case Ok(v, _) => g == Got(v)
      case Err => g == Failed
    decreases ty, |text|, 3
  {
    hide Lex, Load;
    if ty.StrType? {
      g := Got(StrVal(text));
    } else if ty.BinType? {
      g := DecodeBin(text);
    } else {
      var lxr := new Lexer(text);
      var t := lxr.Get();
      g := LoadValue(ty, Default(ty), lxr, t);
    }
  }

  // ---- json_dump and json_load ----

  method DumpJson(ty: Type, v: Value, indent: nat) returns (o: string)
    requires HasType(v, ty)
    ensures o == JsonDump(ty, v, indent)
  {
    hide Text;
    var dh := new DumpHelper(indent, 0);
    o := Dump(ty, v, dh, "");
    assert "" + JsonDump(ty, v, indent) == JsonDump(ty, v, indent);
  }

  method LoadJson(ty: Type, input: string) returns (g: Got)
    ensures match JsonLoad(ty, input)
      case Ok(v, _) => g == Got(v)
      case Err => g == Failed
  {
    hide Lex, Load;
    var lxr := new Lexer(input);
    var t := lxr.Get();
    if t == NoToken { return Failed; }
    g := LoadValue(ty, Default(ty), lxr, t);
  }
}
