/** How dump_helper of src/c7json/proxy.cpp lays out what is dumped. */
module JsonLayout {
  import opened JsonLex
  import opened JsonStrings
  import opened JsonValue
  import JsonNumbers
  import JsonRoundTrip

  /** A new line indented for depth d, or nothing without indentation. */
  function Line(indent: nat, d: nat): string {
    if indent == 0 then "" else "\n" + seq(d * indent, _ => ' ')
  }

  /** The texts one behind the other, with a separator in between. */
  function Listed(ts: seq<string>, sep: string): string {
    if ts == [] then "" else if |ts| == 1 then ts[0] else ts[0] + (sep + Listed(ts[1..], sep))
  }

  /** A comma-separated list in brackets, each entry on a line of its own one level deeper. */
  function Bracketed(left: char, ts: seq<string>, right: char, indent: nat, d: nat): string {
    if ts == [] then [left] + Line(indent, d) + [right]
    else
      [left] + Line(indent, d + 1) + Listed(ts, "," + Line(indent, d + 1)) + Line(indent, d) + [right]
  }

  /** An item, with its name in front if it is a member of a struct. */
  ghost function ItemAt(ty: Type, items: seq<Value>, k: nat, indent: nat, d: nat): string
    requires RowOf(ty, items) && k < |items|
  {
    var text := Text(ItemType(ty, k), items[k], indent, d * indent);
    if ty.StructType? then "\"" + ty.members[k].name + "\":" + text else text
  }

  ghost function ItemTexts(ty: Type, items: seq<Value>, indent: nat, d: nat): (ts: seq<string>)
    requires RowOf(ty, items)
    ensures |ts| == |items|
  {
    seq(|items|, k requires 0 <= k < |items| => ItemAt(ty, items, k, indent, d))
  }

  /** A key, which is a string or is put in one, and its value. */
  ghost function EntryAt(ty: Type, e: Entry, indent: nat, d: nat): string
    requires ty.DictType? && HasType(e.key, ty.key) && HasType(e.value, ty.value)
  {
    var key := Text(ty.key, e.key, 0, 0);
    (if ty.key.StrType? || ty.key.BinType? then key else Quoted(key)) + ":" + Text(ty.value, e.value, indent, d * indent)
  }

  ghost function EntryTexts(ty: Type, entries: seq<Entry>, indent: nat, d: nat): (ts: seq<string>)
    requires EntriesOf(ty, entries)
    ensures |ts| == |entries|
  {
    seq(|entries|, k requires 0 <= k < |entries| => EntryAt(ty, entries[k], indent, d))
  }

  lemma HeadIsLine(indent: nat, d: nat)
    ensures Head(indent, d * indent) == Line(indent, d)
  {
  }

  lemma OneFromTheFront(ts: seq<string>, k: nat, sep: string)
    requires k < |ts|
    ensures Listed(ts[k..], sep) == if k + 1 == |ts| then ts[k] else ts[k] + (sep + Listed(ts[k + 1..], sep))
  {
    assert ts[k..][1..] == ts[k + 1..];
  }

  lemma Joined(a: string, b: string, c: string)
    ensures a + b + c == a + (b + c)
    ensures a + b + "" == a + b
  {
  }

  lemma LabelIs(ty: Type, items: seq<Value>, k: nat, indent: nat, d: nat)
    requires RowOf(ty, items) && k < |items|
    ensures ItemText(ty, items, k, indent, d * indent)
         == (if k == 0 then "" else ",") + Head(indent, d * indent) + ItemAt(ty, items, k, indent, d)
  {
    hide Text, Head, Pref, HasType;
    PrefIs(k == 0, indent, d * indent);
    var h := (if k == 0 then "" else ",") + Head(indent, d * indent);
    Joined(h, Label(ty, k), Text(ItemType(ty, k), items[k], indent, d * indent));
  }

  lemma PrefIs(first: bool, indent: nat, cur: nat)
    ensures Pref(first, indent, cur) == (if first then "" else ",") + Head(indent, cur)
  {
    assert "" + Head(indent, cur) == Head(indent, cur);
  }

  lemma ItemsFrom(ty: Type, items: seq<Value>, k: nat, indent: nat, d: nat)
    requires RowOf(ty, items) && k < |items|
    ensures ItemsText(ty, items, k, indent, d * indent)
         == (if k == 0 then "" else ",") + Line(indent, d) + ItemAt(ty, items, k, indent, d)
            + (if k + 1 < |items| then ItemsText(ty, items, k + 1, indent, d * indent) else "")
  {
    hide Text, Head, Line, ItemText, ItemAt;
    HeadIsLine(indent, d);
    LabelIs(ty, items, k, indent, d);
  }

  lemma {:induction false} ItemsListed(ty: Type, items: seq<Value>, k: nat, indent: nat, d: nat)
    requires RowOf(ty, items) && k < |items|
    ensures ItemsText(ty, items, k, indent, d * indent)
         == (if k == 0 then "" else ",") + Line(indent, d) + Listed(ItemTexts(ty, items, indent, d)[k..], "," + Line(indent, d))
    decreases |items| - k
  {
    hide Text, Line, Listed, ItemsText, ItemAt, RowOf;
    var ts, sep, front := ItemTexts(ty, items, indent, d), "," + Line(indent, d), (if k == 0 then "" else ",") + Line(indent, d);
    ItemsFrom(ty, items, k, indent, d);
    OneFromTheFront(ts, k, sep);
    if k + 1 < |items| {
      ItemsListed(ty, items, k + 1, indent, d);
      Joined(front, ts[k], sep + Listed(ts[k + 1..], sep));
    } else {
      Joined(front, ts[k], "");
    }
  }

  /** A dumped pair, tuple, array or struct at depth d: its items stand on lines of their own, d + 1
      times indented, and the closing bracket on one d times indented. */
  lemma RowLayout(ty: Type, v: Value, indent: nat, d: nat)
    requires HasType(v, ty) && ty.Row()
    ensures RowOf(ty, v.items)
    ensures Text(ty, v, indent, d * indent) ==
      if ty.StructType? then Bracketed('{', ItemTexts(ty, v.items, indent, d + 1), '}', indent, d)
      else Bracketed('[', ItemTexts(ty, v.items, indent, d + 1), ']', indent, d)
  {
    hide Line, Listed, ItemsText, ItemTexts, Head;
    var ts, items := ItemTexts(ty, v.items, indent, d + 1), ItemsText(ty, v.items, 0, indent, d * indent + indent);
    assert d * indent + indent == (d + 1) * indent;
    HeadIsLine(indent, d);
    assert Text(ty, v, indent, d * indent) == [Opening(ty)] + items + Line(indent, d) + [Closing(ty)];
    if v.items == [] {
      NoItems(ty, v.items, indent, d * indent + indent);
      assert [Opening(ty)] + "" == [Opening(ty)];
    } else {
      ItemsListed(ty, v.items, 0, indent, d + 1);
      assert ts[0..] == ts && "" + Line(indent, d + 1) == Line(indent, d + 1);
      Joined([Opening(ty)], Line(indent, d + 1), Listed(ts, "," + Line(indent, d + 1)));
    }
  }

  lemma NoItems(ty: Type, items: seq<Value>, indent: nat, cur: nat)
    requires RowOf(ty, items) && items == []
    ensures ItemsText(ty, items, 0, indent, cur) == ""
  {
  }

  // ---- dicts ----

  lemma EntriesFrom(ty: Type, entries: seq<Entry>, k: nat, indent: nat, d: nat)
    requires EntriesOf(ty, entries) && k < |entries|
    ensures EntriesText(ty, entries, k, indent, d * indent)
         == (if k == 0 then "" else ",") + Line(indent, d) + EntryAt(ty, entries[k], indent, d)
            + (if k + 1 < |entries| then EntriesText(ty, entries, k + 1, indent, d * indent) else "")
  {
    hide Text, Head, Line, EntryText, EntryAt, EntriesOf;
    HeadIsLine(indent, d);
    EntryIs(ty, entries, k, indent, d);
    EntriesUnfold(ty, entries, k, indent, d * indent);
  }

  lemma EntriesUnfold(ty: Type, entries: seq<Entry>, k: nat, indent: nat, cur: nat)
    requires EntriesOf(ty, entries) && k < |entries|
    ensures EntriesText(ty, entries, k, indent, cur)
         == (if k == 0 then "" else ",") + Head(indent, cur) + EntryText(ty, entries[k], indent, cur)
            + (if k + 1 < |entries| then EntriesText(ty, entries, k + 1, indent, cur) else "")
  {
    hide Text, Head, EntryText;
  }

  lemma EntryIs(ty: Type, entries: seq<Entry>, k: nat, indent: nat, d: nat)
    requires EntriesOf(ty, entries) && k < |entries|
    ensures HasType(entries[k].key, ty.key) && HasType(entries[k].value, ty.value)
    ensures EntryText(ty, entries[k], indent, d * indent) == EntryAt(ty, entries[k], indent, d)
  {
    hide Text;
  }

  lemma {:induction false} EntriesListed(ty: Type, entries: seq<Entry>, k: nat, indent: nat, d: nat)
    requires EntriesOf(ty, entries) && k < |entries|
    ensures EntriesText(ty, entries, k, indent, d * indent)
         == (if k == 0 then "" else ",") + Line(indent, d) + Listed(EntryTexts(ty, entries, indent, d)[k..], "," + Line(indent, d))
    decreases |entries| - k
  {
    hide Text, Line, Listed, EntriesText, EntryAt, EntriesOf, HasType;
    var ts, sep, front := EntryTexts(ty, entries, indent, d), "," + Line(indent, d), (if k == 0 then "" else ",") + Line(indent, d);
    EntriesFrom(ty, entries, k, indent, d);
    OneFromTheFront(ts, k, sep);
    if k + 1 < |entries| {
      EntriesListed(ty, entries, k + 1, indent, d);
      Joined(front, ts[k], sep + Listed(ts[k + 1..], sep));
    } else {
      Joined(front, ts[k], "");
    }
  }

  /** The same for a dumped dict and its entries. */
  lemma DictLayout(ty: Type, v: Value, indent: nat, d: nat)
    requires HasType(v, ty) && ty.DictType?
    ensures EntriesOf(ty, v.entries)
    ensures Text(ty, v, indent, d * indent) == Bracketed('{', EntryTexts(ty, v.entries, indent, d + 1), '}', indent, d)
  {
    hide Line, Listed, EntriesText, EntryTexts, Head;
    var ts, all := EntryTexts(ty, v.entries, indent, d + 1), EntriesText(ty, v.entries, 0, indent, d * indent + indent);
    assert d * indent + indent == (d + 1) * indent;
    HeadIsLine(indent, d);
    assert Text(ty, v, indent, d * indent) == "{" + all + Line(indent, d) + "}";
    if v.entries == [] {
      NoEntries(ty, v.entries, indent, d * indent + indent);
      assert "{" + "" == "{";
    } else {
      EntriesListed(ty, v.entries, 0, indent, d + 1);
      assert ts[0..] == ts && "" + Line(indent, d + 1) == Line(indent, d + 1);
      Joined("{", Line(indent, d + 1), Listed(ts, "," + Line(indent, d + 1)));
    }
  }

  lemma NoEntries(ty: Type, entries: seq<Entry>, indent: nat, cur: nat)
    requires EntriesOf(ty, entries) && entries == []
    ensures EntriesText(ty, entries, 0, indent, cur) == ""
  {
  }

  // ---- strings and numbers ----

  ghost predicate HasLetter(number: int) {
    exists l :: LetterMeans(l, number)
  }

  /** The piece a character is written as: the escape of one letter if it has one, four digits in
      lower case for any other control character, and itself for what is left. */
  ghost predicate IsWritten(c: char, p: Piece) {
    match p
    case Letter(l) => LetterMeans(l, c as int)
    case Code(hex) =>
      && c as int < 0x20 && !HasLetter(c as int)
      && SpellsCode(hex, c as nat) && forall i :: 0 <= i < |hex| ==> !('A' <= hex[i] <= 'F')
    case Plain(d) => d == c && c as int >= 0x20 && !HasLetter(c as int)
  }

  lemma CharIsWritten(c: char) returns (p: Piece)
    ensures IsWritten(c, p) && EscapedChar(c) == p.Text()
  {
    var l := if c == 8 as char then 'b' else if c == 12 as char then 'f' else if c == '\n' then 'n'
             else if c == '\r' then 'r' else if c == '\t' then 't' else c;
    if LetterMeans(l, c as int) {
      p := Letter(l);
    } else if c as int < 0x20 {
      var hex := "00" + [Digit(c as nat / 16), Digit(c as nat % 16)];
      p := Code(hex);
      assert EscapedChar(c) == "\\u" + hex;
      CodeOfControl(c);
    } else {
      p := Plain(c);
    }
  }

  lemma CodeOfControl(c: char)
    requires c as int < 0x20
    ensures var hex := "00" + [Digit(c as nat / 16), Digit(c as nat % 16)];
      SpellsCode(hex, c as nat) && forall i :: 0 <= i < |hex| ==> !('A' <= hex[i] <= 'F')
  {
    var u := c as nat;
    assert u / 4096 == 0 && u / 256 == 0 && u / 16 < 2 && u / 16 % 16 == u / 16;
  }

  /** A string is written as its characters are, between quotation marks. */
  lemma StringIsWritten(s: string) returns (ps: seq<Piece>)
    ensures |ps| == |s| && forall i :: 0 <= i < |s| ==> IsWritten(s[i], ps[i])
    ensures Quoted(s) == "\"" + Texts(ps) + "\""
  {
    ps := PiecesOfText(s);
  }

  lemma {:induction false} PiecesOfText(s: string) returns (ps: seq<Piece>)
    ensures |ps| == |s| && forall i :: 0 <= i < |s| ==> IsWritten(s[i], ps[i])
    ensures EscapedText(s) == Texts(ps)
  {
    hide IsWritten, EscapedChar, Piece.Text;
    ps := [];
    if s != "" {
      var p := CharIsWritten(s[0]);
      var more := PiecesOfText(s[1..]);
      ps := [p] + more;
      assert ps[1..] == more;
      forall i | 0 <= i < |s| ensures IsWritten(s[i], ps[i]) {
        if i > 0 { assert s[i] == s[1..][i - 1] && ps[i] == more[i - 1]; }
      }
    }
  }

  /** An integer is written in decimal digits without a leading zero, with a minus sign in front if
      it is negative. */
  lemma IntIsWritten(i: int) returns (digits: string)
    ensures IntText(i) == (if i < 0 then "-" else "") + digits
    ensures digits != "" && JsonNumbers.AllDigits(digits) && (|digits| > 1 ==> digits[0] != '0')
    ensures NatValue(digits) == if i < 0 then -i else i
  {
    hide NatText, NatValue;
    var n: nat := if i < 0 then -i else i;
    digits := NatText(n);
    JsonRoundTrip.NatTextIs(n);
    JsonRoundTrip.ZeroAlone(n);
    assert "" + digits == digits;
  }
}
