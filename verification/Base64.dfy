/** base64enc_iter and base64dec_iter of src/c7nseq/base64.hpp: iterators that turn three bytes
    into four letters and back.  Shifts and masks are written as quotients and remainders. */
module Base64 {
  import opened Bytes

  // ---- the tables ----

  function Enctab(v: nat): char
    requires v < 64
  {
    if v < 26 then 'A' + v as char
    else if v < 52 then 'a' + (v - 26) as char
    else if v < 62 then '0' + (v - 52) as char
    else if v == 62 then '+' else '/'
  }

  function Dectab(c: char): (v: nat)
    ensures v < 64
  {
    if 'A' <= c <= 'Z' then (c - 'A') as nat
    else if 'a' <= c <= 'z' then 26 + (c - 'a') as nat
    else if '0' <= c <= '9' then 52 + (c - '0') as nat
    else if c == '+' then 62
    else if c == '/' then 63 else 0
  }

  lemma TablesAgree(v: nat)
    requires v < 64
    ensures Dectab(Enctab(v)) == v && Enctab(v) != '=' && Enctab(v) < 128 as char
  {
  }

  /** Table 1 of RFC 4648. */
  const UPPER := "ABCDEFGHIJKLMNOPQRSTUVWXYZ"
  const LOWER := "abcdefghijklmnopqrstuvwxyz"
  const DIGITS := "0123456789"
  const ALPHABET := UPPER + LOWER + DIGITS + "+/"

  lemma UpperAt(v: nat)
    requires v < 26
    ensures |UPPER| == 26 && UPPER[v] == 'A' + v as char
  {
  }

  lemma LowerAt(v: nat)
    requires v < 26
    ensures |LOWER| == 26 && LOWER[v] == 'a' + v as char
  {
  }

  lemma DigitAt(v: nat)
    requires v < 10
    ensures |DIGITS| == 10 && DIGITS[v] == '0' + v as char
  {
  }

  lemma AlphabetAt(v: nat)
    requires v < 64
    ensures |ALPHABET| == 64 && ALPHABET[v] == Enctab(v)
  {
    var u, l, d := UPPER, LOWER, DIGITS;
    if v < 26 { UpperAt(v); } else if v < 52 { LowerAt(v - 26); } else if v < 62 { DigitAt(v - 52); }
    UpperAt(0);
    LowerAt(0);
    DigitAt(0);
    PartAt(u, l, d, "+/", v);
  }

  lemma PartAt(u: string, l: string, d: string, e: string, v: nat)
    requires |u| == 26 && |l| == 26 && |d| == 10 && |e| == 2 && v < 64
    ensures (u + l + d + e)[v] == if v < 26 then u[v] else if v < 52 then l[v - 26] else if v < 62 then d[v - 52] else e[v - 62]
  {
  }

  /** Both tables are those of RFC 4648, and what is not in the alphabet counts as zero. */
  lemma TablesAreRfc4648(c: char)
    ensures forall v :: 0 <= v < 64 ==> Enctab(v) == ALPHABET[v] && Dectab(ALPHABET[v]) == v
    ensures c !in ALPHABET ==> Dectab(c) == 0
  {
    hide Enctab, Dectab;
    forall v | 0 <= v < 64 ensures Enctab(v) == ALPHABET[v] && Dectab(ALPHABET[v]) == v {
      AlphabetAt(v);
      TablesAgree(v);
    }
    if Dectab(c) != 0 {
      EncodesBack(c);
      AlphabetAt(Dectab(c));
    }
  }

  lemma EncodesBack(c: char)
    requires Dectab(c) != 0
    ensures Enctab(Dectab(c)) == c
  {
  }

  // ---- one group ----

  function EncodeGroup(u: seq<Byte>): (r: string)
    requires 1 <= |u| <= 3
    ensures |r| == 4
  {
    var u1 := if |u| > 1 then u[1] else 0;
    var u2 := if |u| > 2 then u[2] else 0;
    [Enctab(u[0] / 4), Enctab(u[0] % 4 * 16 + u1 / 16),
     if |u| > 1 then Enctab(u1 % 16 * 4 + u2 / 64) else '=',
     if |u| > 2 then Enctab(u2 % 64) else '=']
  }

  function DecodeGroup(t: string): (r: seq<Byte>)
    requires |t| == 4
    ensures 1 <= |r| <= 3
  {
    var v0, v1, v2, v3 := Dectab(t[0]), Dectab(t[1]), Dectab(t[2]), Dectab(t[3]);
    var b0: Byte := v0 * 4 + v1 / 16;
    var b1: Byte := v1 % 16 * 16 + v2 / 4;
    var b2: Byte := v2 % 4 * 64 + v3;
    if t[2] == '=' then [b0] else if t[3] == '=' then [b0, b1] else [b0, b1, b2]
  }

  lemma BitsRejoin(b0: Byte, b1: Byte, b2: Byte)
    ensures b0 / 4 * 4 + (b0 % 4 * 16 + b1 / 16) / 16 == b0
    ensures (b0 % 4 * 16 + b1 / 16) % 16 * 16 + (b1 % 16 * 4 + b2 / 64) / 4 == b1
    ensures (b1 % 16 * 4 + b2 / 64) % 4 * 64 + b2 % 64 == b2
  {
    assert b1 / 16 < 16 && (b0 % 4 * 16 + b1 / 16) / 16 == b0 % 4 && (b0 % 4 * 16 + b1 / 16) % 16 == b1 / 16;
    assert b2 / 64 < 4 && (b1 % 16 * 4 + b2 / 64) / 4 == b1 % 16 && (b1 % 16 * 4 + b2 / 64) % 4 == b2 / 64;
  }

  lemma GroupRoundTrip(u: seq<Byte>)
    requires 1 <= |u| <= 3
    ensures DecodeGroup(EncodeGroup(u)) == u
  {
    hide Enctab, Dectab;
    var u1 := if |u| > 1 then u[1] else 0;
    var u2 := if |u| > 2 then u[2] else 0;
    TablesAgree(u[0] / 4);
    TablesAgree(u[0] % 4 * 16 + u1 / 16);
    TablesAgree(u1 % 16 * 4 + u2 / 64);
    TablesAgree(u2 % 64);
    BitsRejoin(u[0], u1, u2);
    assert Dectab('=') == 0 by { PaddingIsZero(); }
  }

  lemma PaddingIsZero()
    ensures Dectab('=') == 0
  {
  }

  /** Section 4 of RFC 4648: 24 bits, zeros added on the right, are four groups of 6 bits; an
      input of 8 bits leaves two of the letters as padding, one of 16 bits one. */
  function Rfc4648Letter(u: seq<Byte>, k: nat): char
    requires 1 <= |u| <= 3 && k < 4
  {
    if k <= |u| then ALPHABET[Sextet(u[0], if |u| > 1 then u[1] else 0, if |u| > 2 then u[2] else 0, k)] else '='
  }

  function Sextet(b0: int, b1: int, b2: int, k: nat): (r: nat)
    ensures r < 64
  {
    var bits := 65536 * b0 + 256 * b1 + b2;
    (if k == 0 then bits / 262144 else if k == 1 then bits / 4096 else if k == 2 then bits / 64 else bits) % 64
  }

  lemma SextetsOf(a: nat, b: nat, c: nat, d: nat)
    requires a < 64 && b < 64 && c < 64 && d < 64
    ensures var n := 262144 * a + 4096 * b + 64 * c + d;
      n / 262144 % 64 == a && n / 4096 % 64 == b && n / 64 % 64 == c && n % 64 == d
  {
    var n := 262144 * a + 4096 * b + 64 * c + d;
    assert n / 262144 == a;
    assert n / 4096 == 64 * a + b;
    assert n / 64 == 4096 * a + 64 * b + c;
  }

  lemma SextetsAre(b0: Byte, b1: Byte, b2: Byte)
    ensures Sextet(b0, b1, b2, 0) == b0 / 4
    ensures Sextet(b0, b1, b2, 1) == b0 % 4 * 16 + b1 / 16
    ensures Sextet(b0, b1, b2, 2) == b1 % 16 * 4 + b2 / 64
    ensures Sextet(b0, b1, b2, 3) == b2 % 64
  {
    var q, r, s, t, x, y := b0 / 4, b0 % 4, b1 / 16, b1 % 16, b2 / 64, b2 % 64;
    SextetsOf(q, r * 16 + s, t * 4 + x, y);
  }

  lemma GroupIsRfc4648(u: seq<Byte>, k: nat)
    requires 1 <= |u| <= 3 && k < 4
    ensures EncodeGroup(u)[k] == Rfc4648Letter(u, k)
  {
    hide Enctab, Sextet;
    var u1, u2 := if |u| > 1 then u[1] else 0, if |u| > 2 then u[2] else 0;
    SextetsAre(u[0], u1, u2);
    AlphabetAt(Sextet(u[0], u1, u2, k));
  }

  /** Section 4 of RFC 4648 the other way: four letters are 24 bits and so three bytes, of which
      '=' in the third place leaves one and '=' in the last place alone leaves two. */
  function Rfc4648Bytes(q: string): seq<Byte>
    requires |q| == 4
  {
    var n := 262144 * Dectab(q[0]) + 4096 * Dectab(q[1]) + 64 * Dectab(q[2]) + Dectab(q[3]);
    [n / 65536, n / 256 % 256, n % 256][..if q[2] == '=' then 1 else if q[3] == '=' then 2 else 3]
  }

  /** Any four letters, in the alphabet or not. */
  lemma GroupIsDecoded(q: string)
    requires |q| == 4
    ensures DecodeGroup(q) == Rfc4648Bytes(q)
  {
    hide Dectab;
    BytesOf(Dectab(q[0]), Dectab(q[1]), Dectab(q[2]), Dectab(q[3]));
  }

  lemma BytesOf(a: nat, b: nat, c: nat, d: nat)
    requires a < 64 && b < 64 && c < 64 && d < 64
    ensures var n := 262144 * a + 4096 * b + 64 * c + d;
      n / 65536 == a * 4 + b / 16 && n / 256 % 256 == b % 16 * 16 + c / 4 && n % 256 == c % 4 * 64 + d
  {
    ThreeBytes(a * 4 + b / 16, b % 16 * 16 + c / 4, c % 4 * 64 + d);
    assert b == 16 * (b / 16) + b % 16 && c == 4 * (c / 4) + c % 4;
  }

  lemma ThreeBytes(b0: Byte, b1: Byte, b2: Byte)
    ensures var n := 65536 * b0 + 256 * b1 + b2;
      n / 65536 == b0 && n / 256 % 256 == b1 && n % 256 == b2
  {
    var n := 65536 * b0 + 256 * b1 + b2;
    assert n / 256 == 256 * b0 + b1;
  }

  // ---- whole inputs ----

  function Encode(s: seq<Byte>): string {
    if s == [] then [] else if |s| <= 3 then EncodeGroup(s) else EncodeGroup(s[..3]) + Encode(s[3..])
  }

  function Decode(t: string): seq<Byte>
    requires |t| % 4 == 0
  {
    if t == [] then [] else DecodeGroup(t[..4]) + Decode(t[4..])
  }

  lemma {:induction false} EncodedLength(s: seq<Byte>)
    ensures |Encode(s)| == (|s| + 2) / 3 * 4
  {
    hide EncodeGroup;
    if |s| > 3 { EncodedLength(s[3..]); }
  }

  lemma {:induction false} DecodeOfEncode(s: seq<Byte>)
    ensures |Encode(s)| % 4 == 0
    ensures Decode(Encode(s)) == s
  {
    hide EncodeGroup, DecodeGroup;
    if s == [] {
    } else if |s| <= 3 {
      GroupRoundTrip(s);
      assert Encode(s)[..4] == EncodeGroup(s);
    } else {
      DecodeOfEncode(s[3..]);
      GroupRoundTrip(s[..3]);
      assert Encode(s)[..4] == EncodeGroup(s[..3]);
      assert Encode(s)[4..] == Encode(s[3..]);
    }
  }

  /** Decoding goes group by group. */
  lemma {:induction false} DecodesInGroups(s: string, t: string)
    requires |s| % 4 == 0 && |t| % 4 == 0
    ensures Decode(s + t) == Decode(s) + Decode(t)
  {
    hide DecodeGroup;
    if s == [] {
      assert s + t == t;
    } else {
      DecodesInGroups(s[4..], t);
      assert (s + t)[..4] == s[..4] && (s + t)[4..] == s[4..] + t;
    }
  }

  lemma FourLetters(t: string)
    requires |t| == 4
    ensures Decode(t) == DecodeGroup(t)
  {
    assert t[..4] == t;
  }

  /** Every four letters of an input, wherever they stand, give the bytes of their 24 bits. */
  lemma DecodeIsRfc4648(s: string, q: string, t: string)
    requires |s| % 4 == 0 && |q| == 4 && |t| % 4 == 0
    ensures Decode(s + q + t) == Decode(s) + Rfc4648Bytes(q) + Decode(t)
  {
    hide Decode, DecodeGroup, Rfc4648Bytes;
    DecodesInGroups(s + q, t);
    DecodesInGroups(s, q);
    FourLetters(q);
    GroupIsDecoded(q);
  }

  /** The g-th three bytes, or what there is of them. */
  function Chunk(s: seq<Byte>, g: nat): (r: seq<Byte>)
    requires 3 * g < |s|
    ensures 1 <= |r| <= 3
  {
    s[3 * g..if 3 * g + 3 < |s| then 3 * g + 3 else |s|]
  }

  lemma ChunkFurther(s: seq<Byte>, g: nat)
    requires 3 * g < |s| && g > 0
    ensures Chunk(s, g) == Chunk(s[3..], g - 1)
  {
    var e := if 3 * g + 3 < |s| then 3 * g + 3 else |s|;
    assert s[3..][3 * g - 3..e - 3] == s[3 * g..e];
  }

  lemma {:induction false} ChunkEncoded(s: seq<Byte>, g: nat)
    requires 3 * g < |s|
    ensures 4 * g + 4 <= |Encode(s)| && Encode(s)[4 * g..4 * g + 4] == EncodeGroup(Chunk(s, g))
  {
    hide EncodeGroup;
    if g == 0 {
      assert Chunk(s, 0) == if |s| <= 3 then s else s[..3];
    } else {
      ChunkEncoded(s[3..], g - 1);
      assert Encode(s)[4 * g..4 * g + 4] == Encode(s[3..])[4 * (g - 1)..4 * g];
      ChunkFurther(s, g);
    }
  }

  /** Every letter is the one RFC 4648 asks for. */
  lemma EncodeIsRfc4648(s: seq<Byte>, g: nat, k: nat)
    requires 3 * g < |s| && k < 4
    ensures 4 * g + k < |Encode(s)| && Encode(s)[4 * g + k] == Rfc4648Letter(Chunk(s, g), k)
  {
    hide EncodeGroup, Encode, Rfc4648Letter, Chunk;
    ChunkEncoded(s, g);
    GroupIsRfc4648(Chunk(s, g), k);
    assert Encode(s)[4 * g..4 * g + 4][k] == Encode(s)[4 * g + k];
  }

  // ---- the iterators ----

  class Encoder {
    const input: seq<Byte>
    var it: nat
    const cbuf: array<char>
    var idx: int

    ghost predicate Valid()
      reads this, cbuf
    {
      it <= |input| && cbuf.Length == 4 && -1 <= idx < 4
    }

    /** What the iterator has yet to give. */
    ghost function Rest(): (r: string)
      requires Valid()
      reads this, cbuf
      ensures idx == -1 <==> r == []
    {
      if idx == -1 then [] else cbuf[idx..] + Encode(input[it..])
    }

    constructor (input: seq<Byte>)
      ensures Valid() && Rest() == Encode(input) && fresh(cbuf)
    {
      this.input := input;
      it, idx := 0, -1;
      cbuf := new char[4];
      new;
      DoEncode();
      assert input[0..] == input;
    }

    method DoEncode()
      requires it <= |input| && cbuf.Length == 4
      modifies this, cbuf
      ensures Valid() && Rest() == Encode(old(input[it..]))
    {
      hide Enctab;
      ghost var left := input[it..];
      if it == |input| {
        idx := -1;
        return;
      }
      var ubuf: array<Byte> := new Byte[3];
      var n := 1;
      ubuf[0] := input[it];
      it := it + 1;
      if it != |input| {
        ubuf[1] := input[it];
        n := 2;
        it := it + 1;
        if it != |input| {
          ubuf[2] := input[it];
          n := 3;
          it := it + 1;
        } else {
          ubuf[2] := 0;
        }
      } else {
        ubuf[1], ubuf[2] := 0, 0;
      }
      cbuf[0] := Enctab(ubuf[0] / 4);
      cbuf[1] := Enctab(ubuf[0] % 4 * 16 + ubuf[1] / 16);
      cbuf[2] := Enctab(ubuf[1] % 16 * 4 + ubuf[2] / 64);
      cbuf[3] := Enctab(ubuf[2] % 64);
      if n != 3 {
        cbuf[3] := '=';
        if n == 1 {
          cbuf[2] := '=';
        }
      }
      idx := 0;
      assert cbuf[..] == EncodeGroup(left[..n]);
      assert left[n..] == input[it..];
      EncodeFirst(left, n);
    }

    method Increment()
      requires Valid() && idx != -1
      modifies this, cbuf
      ensures Valid() && Rest() == old(Rest())[1..]
    {
      hide EncodeGroup;
      idx := idx + 1;
      if idx == cbuf.Length {
        DoEncode();
      }
    }

    function Current(): char
      requires Valid() && idx != -1
      reads this, cbuf
      ensures Rest() != [] && Current() == Rest()[0]
    {
      cbuf[idx]
    }
  }

  lemma EncodeFirst(s: seq<Byte>, n: nat)
    requires s != [] && n == if |s| < 3 then |s| else 3
    ensures Encode(s) == EncodeGroup(s[..n]) + Encode(s[n..])
  {
    if |s| <= 3 {
      assert s[..n] == s;
    }
  }

  class Decoder {
    const input: string
    var it: nat
    const ubuf: array<Byte>
    var idx: int

    ghost predicate Valid()
      reads this, ubuf
    {
      it <= |input| && (|input| - it) % 4 == 0 && ubuf.Length == 3 && -1 <= idx < 3
    }

    /** The group's bytes lie at the end of ubuf, from idx on. */
    ghost function Rest(): (r: seq<Byte>)
      requires Valid()
      reads this, ubuf
      ensures idx == -1 <==> r == []
    {
      if idx == -1 then [] else ubuf[idx..] + Decode(input[it..])
    }

    constructor (input: string)
      requires |input| % 4 == 0
      ensures Valid() && Rest() == Decode(input) && fresh(ubuf)
    {
      this.input := input;
      it, idx := 0, -1;
      ubuf := new Byte[3];
      new;
      DoDecode();
      assert input[0..] == input;
    }

    method DoDecode()
      requires it <= |input| && (|input| - it) % 4 == 0 && ubuf.Length == 3
      modifies this, ubuf
      ensures Valid() && Rest() == Decode(old(input[it..]))
    {
      hide Dectab;
      ghost var left := input[it..];
      if it == |input| {
        idx := -1;
        return;
      }
      var i := 0;
      idx := 0;
      var u0 := Dectab(input[it]);
      it := it + 1;
      var u1 := Dectab(input[it]);
      it := it + 1;
      var u2 := Dectab(input[it]);
      if input[it] == '=' {
        i, idx := 2, 2;
      }
      it := it + 1;
      var u3 := Dectab(input[it]);
      if input[it] == '=' && idx == 0 {
        i, idx := 1, 1;
      }
      it := it + 1;
      ubuf[i] := u0 * 4 + u1 / 16;
      i := i + 1;
      if i != 3 {
        ubuf[i] := u1 % 16 * 16 + u2 / 4;
        i := i + 1;
        if i != 3 {
          ubuf[i] := u2 % 4 * 64 + u3;
          i := i + 1;
        }
      }
      assert ubuf[idx..] == DecodeGroup(left[..4]);
      assert left[4..] == input[it..];
    }

    method Increment()
      requires Valid() && idx != -1
      modifies this, ubuf
      ensures Valid() && Rest() == old(Rest())[1..]
    {
      hide DecodeGroup;
      idx := idx + 1;
      if idx == ubuf.Length {
        DoDecode();
      }
    }

    function Current(): Byte
      requires Valid() && idx != -1
      reads this, ubuf
      ensures Rest() != [] && Current() == Rest()[0]
    {
      ubuf[idx]
    }
  }

  lemma MoveOne<T>(done: seq<T>, rest: seq<T>)
    requires rest != []
    ensures done + [rest[0]] + rest[1..] == done + rest
  {
  }

  /** What push_back collects from an encoding sequence. */
  method CollectEncoded(s: seq<Byte>) returns (t: string)
    ensures t == Encode(s)
  {
    hide EncodeGroup, Encode, Encoder.Rest;
    var e := new Encoder(s);
    t := [];
    ghost var rest := e.Rest();
    while e.idx != -1
      invariant fresh(e) && fresh(e.cbuf) && e.Valid()
      invariant rest == e.Rest() && t + rest == Encode(s)
      decreases |rest|
    {
      MoveOne(t, rest);
      t := t + [e.Current()];
      e.Increment();
      rest := rest[1..];
    }
  }

  method CollectDecoded(t: string) returns (s: seq<Byte>)
    requires |t| % 4 == 0
    ensures s == Decode(t)
  {
    hide DecodeGroup, Decode, Decoder.Rest;
    var d := new Decoder(t);
    s := [];
    ghost var rest := d.Rest();
    while d.idx != -1
      invariant fresh(d) && fresh(d.ubuf) && d.Valid()
      invariant rest == d.Rest() && s + rest == Decode(t)
      decreases |rest|
    {
      MoveOne(s, rest);
      s := s + [d.Current()];
      d.Increment();
      rest := rest[1..];
    }
  }
}
