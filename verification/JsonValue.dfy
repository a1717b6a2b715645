/** Typed values of src/c7json/proxy.hpp, the text each is dumped to and the value a text is
    loaded as.  A dict is given by its entries in the order its hash table is walked. */
module JsonValue {
  import opened Bytes
  import opened JsonLex
  import Base64

  datatype Type =
    | IntType | BoolType | StrType | BinType
    | PairType(first: Type, second: Type) | TupleType(types: seq<Type>) | ArrayType(element: Type)
    | StructType(members: seq<Member>)
    | DictType(key: Type, value: Type)
  {
    /** Types whose values are rows of values. */
    predicate Row() { PairType? || TupleType? || ArrayType? || StructType? }
  }

  datatype Member = Member(name: string, ty: Type)

  datatype Value =
    | IntVal(i: int) | BoolVal(b: bool) | StrVal(s: string) | BinVal(bytes: seq<Byte>)
    | ListVal(items: seq<Value>)
    | DictVal(entries: seq<Entry>)

  datatype Entry = Entry(key: Value, value: Value)

  // ---- typing ----

  /** What a member name must look like to be read back: dump_impl writes it as it is. */
  predicate PlainName(name: string) {
    forall i :: 0 <= i < |name| ==> name[i] != '\"' && name[i] != '\\'
  }

  predicate GoodNames(ms: seq<Member>) {
    && (forall i :: 0 <= i < |ms| ==> PlainName(ms[i].name))
    && forall i, j :: 0 <= i < j < |ms| ==> ms[i].name != ms[j].name
  }

  predicate NamesAreGood(ty: Type) {
    ty.StructType? ==> GoodNames(ty.members)
  }

  predicate Arity(ty: Type, n: nat) {
    && (ty.PairType? ==> n == 2) && (ty.TupleType? ==> n == |ty.types|)
    && (ty.StructType? ==> n == |ty.members|)
  }

  predicate HasItem(ty: Type, i: nat) {
    && (ty.PairType? ==> i < 2) && (ty.TupleType? ==> i < |ty.types|)
    && (ty.StructType? ==> i < |ty.members|)
  }

  /** The type of the item at i in a row. */
  function ItemType(ty: Type, i: nat): (t: Type)
    requires ty.Row() && HasItem(ty, i)
    ensures t < ty
  {
    match ty
    case PairType(a, b) => if i == 0 then a else b
    case TupleType(ts) => ts[i]
    case ArrayType(t) => t
    case StructType(ms) => ms[i].ty
  }

  ghost predicate HasType(v: Value, ty: Type)
    decreases v
  {
    match ty
    case IntType => v.IntVal? && I64_MIN <= v.i <= I64_MAX
    case BoolType => v.BoolVal?
    case StrType => v.StrVal?
    case BinType => v.BinVal?
    case DictType(k, e) =>
      && v.DictVal?
      && (forall i :: 0 <= i < |v.entries| ==> HasType(v.entries[i].key, k) && HasType(v.entries[i].value, e))
      && forall i, j :: 0 <= i < j < |v.entries| ==> v.entries[i].key != v.entries[j].key
    case _ =>
      && v.ListVal? && Arity(ty, |v.items|) && NamesAreGood(ty)
      && forall i :: 0 <= i < |v.items| ==> HasType(v.items[i], ItemType(ty, i))
  }

  /** What a cleared proxy holds. */
  function Default(ty: Type): Value {
    match ty
    case IntType => IntVal(0)
    case BoolType => BoolVal(false)
    case StrType => StrVal("")
    case BinType => BinVal([])
    case PairType(a, b) => ListVal([Default(a), Default(b)])
    case TupleType(ts) => ListVal(seq(|ts|, i requires 0 <= i < |ts| => Default(ts[i])))
    case ArrayType(_) => ListVal([])
    case StructType(ms) => ListVal(seq(|ms|, i requires 0 <= i < |ms| => Default(ms[i].ty)))
    case DictType(_, _) => DictVal([])
  }

  // ---- dumping ----

  function Spaces(n: nat): string {
    seq(n, _ => ' ')
  }

  function Digit(d: nat): char
    requires d < 16
  {
    if d < 10 then '0' + d as char else 'a' + (d - 10) as char
  }

  function NatText(n: nat): (r: string)
    ensures r != [] && IsDigit(r[0])
  {
    if n < 10 then [Digit(n)] else NatText(n / 10) + [Digit(n % 10)]
  }

  function IntText(i: int): string {
    if i < 0 then "-" + NatText(-i) else NatText(i)
  }

  function EscapedChar(c: char): string {
    if c == 8 as char then "\\b"
    else if c == 12 as char then "\\f"
    else if c == '\n' then "\\n"
    else if c == '\r' then "\\r"
    else if c == '\t' then "\\t"
    else if c == '\\' then "\\\\"
    else if c == '/' then "\\/"
    else if c == '\"' then "\\\""
    else if c < ' ' then "\\u00" + [Digit(c as nat / 16), Digit(c as nat % 16)]
    else [c]
  }

  function EscapedText(s: string): string {
    if s == [] then [] else EscapedChar(s[0]) + EscapedText(s[1..])
  }

  function Quoted(s: string): string {
    "\"" + EscapedText(s) + "\""
  }

  /** What is written in front of a first item and of a closing bracket. */
  function Head(indent: nat, cur: nat): string {
    if indent > 0 then "\n" + Spaces(cur) else ""
  }

  function Pref(first: bool, indent: nat, cur: nat): string {
    if first then Head(indent, cur) else "," + Head(indent, cur)
  }

  function Opening(ty: Type): char {
    if ty.StructType? || ty.DictType? then '{' else '['
  }

  function Closing(ty: Type): char {
    if ty.StructType? || ty.DictType? then '}' else ']'
  }

  function Label(ty: Type, i: nat): string
    requires ty.Row() && HasItem(ty, i)
  {
    if ty.StructType? then "\"" + ty.members[i].name + "\":" else ""
  }

  ghost function Text(ty: Type, v: Value, indent: nat, cur: nat): string
    requires HasType(v, ty)
    decreases v, 0
  {
    match ty
    case IntType => IntText(v.i)
    case BoolType => if v.b then "true" else "false"
    case StrType => Quoted(v.s)
    case BinType => Quoted(Base64.Encode(v.bytes))
    case DictType(_, _) => "{" + EntriesText(ty, v.entries, 0, indent, cur + indent) + Head(indent, cur) + "}"
    case _ =>
      [Opening(ty)] + ItemsText(ty, v.items, 0, indent, cur + indent) + Head(indent, cur) + [Closing(ty)]
  }

  ghost predicate RowOf(ty: Type, items: seq<Value>) {
    && ty.Row() && Arity(ty, |items|) && NamesAreGood(ty)
    && forall i :: 0 <= i < |items| ==> HasItem(ty, i) && HasType(items[i], ItemType(ty, i))
  }

  /** The items from k on. */
  ghost function ItemsText(ty: Type, items: seq<Value>, k: nat, indent: nat, cur: nat): string
    requires RowOf(ty, items) && k <= |items|
    decreases items, |items| - k
  {
    if k == |items| then []
    else
      ItemText(ty, items, k, indent, cur) + ItemsText(ty, items, k + 1, indent, cur)
  }

  ghost function ItemText(ty: Type, items: seq<Value>, k: nat, indent: nat, cur: nat): string
    requires RowOf(ty, items) && k < |items|
    decreases items, 0
  {
    Pref(k == 0, indent, cur) + Label(ty, k) + Text(ItemType(ty, k), items[k], indent, cur)
  }

  ghost predicate EntriesOf(ty: Type, entries: seq<Entry>) {
    && ty.DictType?
    && (forall i :: 0 <= i < |entries| ==> HasType(entries[i].key, ty.key) && HasType(entries[i].value, ty.value))
    && forall i, j :: 0 <= i < j < |entries| ==> entries[i].key != entries[j].key
  }

  ghost function EntriesText(ty: Type, entries: seq<Entry>, k: nat, indent: nat, cur: nat): string
    requires EntriesOf(ty, entries) && k <= |entries|
    decreases entries, |entries| - k
  {
    if k == |entries| then []
    else
      Pref(k == 0, indent, cur) + EntryText(ty, entries[k], indent, cur)
      + EntriesText(ty, entries, k + 1, indent, cur)
  }

  ghost function EntryText(ty: Type, e: Entry, indent: nat, cur: nat): string
    requires ty.DictType? && HasType(e.key, ty.key) && HasType(e.value, ty.value)
    decreases e, 0
  {
    KeyText(ty.key, e.key) + ":" + Text(ty.value, e.value, indent, cur)
  }

  /** Keys that are strings already are not put in a string once more. */
  predicate IsStringKey(ty: Type) { ty.StrType? || ty.BinType? }

  ghost function KeyText(ty: Type, key: Value): string
    requires HasType(key, ty)
    decreases key, 1
  {
    if IsStringKey(ty) then Text(ty, key, 0, 0) else Quoted(Text(ty, key, 0, 0))
  }

  // ---- loading ----

  datatype Loaded = Ok(value: Value, rest: string) | Err

  function IntOf(t: Token, rest: string): Loaded {
    if t.Int? then Ok(IntVal(t.i64), rest) else Err
  }

  function BoolOf(t: Token, rest: string): Loaded {
    if t.TrueWord? then Ok(BoolVal(true), rest) else if t.FalseWord? then Ok(BoolVal(false), rest) else Err
  }

  function StrOf(t: Token, rest: string): Loaded {
    if t.Str? then Ok(StrVal(t.str), rest) else Err
  }

  /** The null character that ends a string is read as often as a last group lacks letters. */
  function Padded(s: string): (r: string)
    ensures |r| % 4 == 0
  {
    s + seq((4 - |s| % 4) % 4, _ => 0 as char)
  }

  function BinOf(t: Token, rest: string): Loaded {
    if t.Str? then Ok(BinVal(Base64.Decode(Padded(t.str))), rest) else Err
  }

  function ItemsIn(cur: Value): seq<Value> {
    if cur.ListVal? then cur.items else []
  }

  function EntriesIn(cur: Value): seq<Entry> {
    if cur.DictVal? then cur.entries else []
  }

  /** The item a proxy holds at i before it is loaded. */
  function ItemIn(cur: Value, i: nat, ty: Type): Value {
    if i < |ItemsIn(cur)| then ItemsIn(cur)[i] else Default(ty)
  }

  /** What a tuple holds before it is loaded. */
  function Held(ts: seq<Type>, cur: Value): (held: seq<Value>)
    ensures |held| == |ts| && forall i :: 0 <= i < |ts| ==> held[i] == ItemIn(cur, i, ts[i])
  {
    seq(|ts|, i requires 0 <= i < |ts| => ItemIn(cur, i, ts[i]))
  }

  /** What a struct holds before it is loaded. */
  function HeldMembers(ms: seq<Member>, cur: Value): (held: seq<Value>)
    ensures |held| == |ms| && forall i :: 0 <= i < |ms| ==> held[i] == ItemIn(cur, i, ms[i].ty)
  {
    seq(|ms|, i requires 0 <= i < |ms| => ItemIn(cur, i, ms[i].ty))
  }

  /** Loading into a proxy that holds cur, with the token t read and rest behind it. */
  function Load(ty: Type, cur: Value, t: Token, rest: string): (r: Loaded)
    ensures r.Ok? ==> |r.rest| <= |rest|
    decreases ty, |rest|, 1
  {
    match ty
    case IntType => IntOf(t, rest)
    case BoolType => BoolOf(t, rest)
    case StrType => StrOf(t, rest)
    case BinType => BinOf(t, rest)
    case PairType(a, b) =>
      if t != SquareL then Err else
        var l := Lex(rest);
        var r1 := Load(a, ItemIn(cur, 0, a), l.token, l.rest);
        if r1.Err? then Err else
          var comma := Lex(r1.rest);
          if comma.token != Comma then Err else
            var l2 := Lex(comma.rest);
            var r2 := Load(b, ItemIn(cur, 1, b), l2.token, l2.rest);
            if r2.Err? then Err else
              var end := Lex(r2.rest);
              if end.token == SquareR then Ok(ListVal([r1.value, r2.value]), end.rest) else Err
    case TupleType(ts) =>
      if t != SquareL then Err else
        var l := Lex(rest);
        var held := Held(ts, cur);
        if l.token == SquareR then Ok(ListVal(held), l.rest) else LoadTuple(ty, held, 0, l.token, l.rest)
    case ArrayType(_) =>
      if t != SquareL then Err else
        var l := Lex(rest);
        if l.token == SquareR then Ok(ListVal(ItemsIn(cur)), l.rest) else LoadArray(ty, ItemsIn(cur), l.token, l.rest)
    case StructType(ms) =>
      if t != CurlyL then Err else
        var l := Lex(rest);
        var held := HeldMembers(ms, cur);
        if l.token == CurlyR then Ok(ListVal(held), l.rest) else LoadMembers(ty, held, l.token, l.rest)
    case DictType(_, _) =>
      if t != CurlyL then Err else
        var l := Lex(rest);
        if l.token == CurlyR then Ok(DictVal(EntriesIn(cur)), l.rest) else LoadEntries(ty, EntriesIn(cur), l.token, l.rest)
  }

  /** The elements of a tuple from k on.  Behind the last one token is read, whatever it is. */
  function LoadTuple(ty: Type, items: seq<Value>, k: nat, t: Token, rest: string): (r: Loaded)
    requires ty.TupleType? && k <= |items| == |ty.types|
    ensures r.Ok? ==> |r.rest| <= |rest|
    decreases ty, |rest|, 0, |items| - k
  {
    if k == |items| then
      var end := Lex(rest);
      if end.token == SquareR then Ok(ListVal(items), end.rest) else Err
    else
      var sep := if k == 0 then Lexed(Comma, rest) else Lex(rest);
      if sep.token != Comma then Err else
        var l := if k == 0 then Lexed(t, rest) else Lex(sep.rest);
        var r := Load(ty.types[k], items[k], l.token, l.rest);
        if r.Err? then Err else LoadTuple(ty, items[k := r.value], k + 1, l.token, r.rest)
  }

  function LoadArray(ty: Type, items: seq<Value>, t: Token, rest: string): (r: Loaded)
    requires ty.ArrayType?
    ensures r.Ok? ==> |r.rest| <= |rest|
    decreases ty, |rest|, 0
  {
    var r := Load(ty.element, Default(ty.element), t, rest);
    if r.Err? then Err else
      var sep := Lex(r.rest);
      var items' := items + [r.value];
      if sep.token == Comma then
        var l := Lex(sep.rest);
        LoadArray(ty, items', l.token, l.rest)
      else if sep.token == SquareR then Ok(ListVal(items'), sep.rest) else Err
  }

  /** The place of a member, or the number of members if there is none of this name. */
  function Find(ms: seq<Member>, name: string): (i: nat)
    ensures i <= |ms| && (i < |ms| ==> ms[i].name == name)
  {
    if ms == [] || ms[0].name == name then 0 else 1 + Find(ms[1..], name)
  }

  function LoadMembers(ty: Type, items: seq<Value>, t: Token, rest: string): (r: Loaded)
    requires ty.StructType? && |items| == |ty.members|
    ensures r.Ok? ==> |r.rest| <= |rest|
    decreases ty, |rest|, 0
  {
    if !t.Str? then Err else
      var colon := Lex(rest);
      if colon.token != Colon then Err else
        var l := Lex(colon.rest);
        var i := Find(ty.members, t.str);
        if i == |ty.members| then Err else
          var r := Load(ty.members[i].ty, items[i], l.token, l.rest);
          if r.Err? then Err else
            var sep := Lex(r.rest);
            var items' := items[i := r.value];
            if sep.token == Comma then
              var next := Lex(sep.rest);
              LoadMembers(ty, items', next.token, next.rest)
            else if sep.token == CurlyR then Ok(ListVal(items'), sep.rest) else Err
  }

  /** insert_or_assign. */
  function Assigned(entries: seq<Entry>, key: Value, value: Value): seq<Entry> {
    if entries == [] then [Entry(key, value)]
    else if entries[0].key == key then [Entry(key, value)] + entries[1..]
    else [entries[0]] + Assigned(entries[1..], key, value)
  }

  function LoadKey(ty: Type, text: string): Loaded
    decreases ty, |text|, 2
  {
    if ty.StrType? then Ok(StrVal(text), [])
    else if ty.BinType? then Ok(BinVal(Base64.Decode(Padded(text))), [])
    else
      var l := Lex(text);
      Load(ty, Default(ty), l.token, l.rest)
  }

  function LoadEntries(ty: Type, entries: seq<Entry>, t: Token, rest: string): (r: Loaded)
    requires ty.DictType?
    ensures r.Ok? ==> |r.rest| <= |rest|
    decreases ty, |rest|, 0
  {
    if !t.Str? then Err else
      var colon := Lex(rest);
      if colon.token != Colon then Err else
        var l := Lex(colon.rest);
        var k := LoadKey(ty.key, t.str);
        if k.Err? then Err else
          var r := Load(ty.value, Default(ty.value), l.token, l.rest);
          if r.Err? then Err else
            var sep := Lex(r.rest);
            var entries' := Assigned(entries, k.value, r.value);
            if sep.token == Comma then
              var next := Lex(sep.rest);
              LoadEntries(ty, entries', next.token, next.rest)
            else if sep.token == CurlyR then Ok(DictVal(entries'), sep.rest) else Err
  }

  // ---- json_dump and json_load ----

  ghost function JsonDump(ty: Type, v: Value, indent: nat): string
    requires HasType(v, ty)
  {
    Text(ty, v, indent, 0)
  }

  function JsonLoad(ty: Type, s: string): Loaded {
    var l := Lex(s);
    if l.token == NoToken then Err else Load(ty, Default(ty), l.token, l.rest)
  }
}
