/** tinc's base64: little-endian groups of three bytes, no padding, and two alphabets that decode alike. */
module Base64 {
  import opened Basics

  type Sextet = x: nat | x < 64

  /** The letters, the digits, and the two characters the alphabets differ in. */
  function Symbol(v: Sextet, urlSafe: bool): char {
    if v < 26 then ('A' as int + v) as char
    else if v < 52 then ('a' as int + v - 26) as char
    else if v < 62 then ('0' as int + v - 52) as char
    else if v == 62 then (if urlSafe then '-' else '+')
    else (if urlSafe then '_' else '/')
  }

  function Value(c: char): Option<Sextet> {
    if 'A' <= c <= 'Z' then Some(c as int - 'A' as int)
    else if 'a' <= c <= 'z' then Some(c as int - 'a' as int + 26)
    else if '0' <= c <= '9' then Some(c as int - '0' as int + 52)
    else if c == '+' || c == '-' then Some(62)
    else if c == '/' || c == '_' then Some(63)
    else None
  }

  /** A character of either alphabet. */
  predicate IsSymbol(c: char) { Value(c).Some? }

  lemma SymbolHasValue(v: Sextet, urlSafe: bool)
    ensures Value(Symbol(v, urlSafe)) == Some(v)
  {
  }

  // Groups: three bytes are four sextets, two are three, one is two. Either way a group is a little-endian number.

  function FromBytes(bytes: Data): nat {
    if bytes == [] then 0 else bytes[0] + 0x100 * FromBytes(bytes[1..])
  }

  function FromSextets(s: seq<Sextet>): nat {
    if s == [] then 0 else s[0] + 64 * FromSextets(s[1..])
  }

  /** The lowest `n` digits of a number. */
  function ToBytes(t: nat, n: nat): (r: Data)
    ensures |r| == n
  {
    if n == 0 then [] else [t % 0x100] + ToBytes(t / 0x100, n - 1)
  }

  function ToSextets(t: nat, n: nat): (r: seq<Sextet>)
    ensures |r| == n
  {
    if n == 0 then [] else [t % 64] + ToSextets(t / 64, n - 1)
  }

  lemma {:induction false} BytesReturn(bytes: Data)
    ensures ToBytes(FromBytes(bytes), |bytes|) == bytes
  {
    if bytes == [] {
    } else {
      var t := FromBytes(bytes[1..]);
      assert (bytes[0] + 0x100 * t) % 0x100 == bytes[0] && (bytes[0] + 0x100 * t) / 0x100 == t;
      BytesReturn(bytes[1..]);
    }
  }

  /** A number of few enough bits survives as sextets. */
  lemma {:induction false} SextetsReturn(t: nat, n: nat)
    requires t < Power(64, n)
    ensures FromSextets(ToSextets(t, n)) == t
  {
    if n == 0 {
    } else {
      assert Power(64, n) == 64 * Power(64, n - 1);
      SextetsReturn(t / 64, n - 1);
      assert ToSextets(t, n)[1..] == ToSextets(t / 64, n - 1);
    }
  }

  lemma {:induction false} BytesBound(bytes: Data)
    ensures FromBytes(bytes) < Power(0x100, |bytes|)
  {
    if bytes == [] {
    } else {
      BytesBound(bytes[1..]);
    }
  }

  lemma GroupFits(n: nat)
    requires 1 <= n <= 3
    ensures Power(0x100, n) <= Power(64, n + 1)
  {
    assert Power(0x100, 1) == 0x100 && Power(0x100, 2) == 0x1_0000 && Power(0x100, 3) == 0x100_0000;
    assert Power(64, 1) == 64 && Power(64, 2) == 0x1000 && Power(64, 3) == 0x4_0000 && Power(64, 4) == 0x100_0000;
  }

  function Sextets(bytes: Data): (r: seq<Sextet>)
    ensures |r| == |bytes| + 1
  {
    ToSextets(FromBytes(bytes), |bytes| + 1)
  }

  function Bytes(sextets: seq<Sextet>): (r: Data)
    requires sextets != []
    ensures |r| == |sextets| - 1
  {
    ToBytes(FromSextets(sextets), |sextets| - 1)
  }

  lemma GroupReturns(bytes: Data)
    requires 1 <= |bytes| <= 3
    ensures Bytes(Sextets(bytes)) == bytes
  {
    BytesBound(bytes);
    GroupFits(|bytes|);
    SextetsReturn(FromBytes(bytes), |bytes| + 1);
    BytesReturn(bytes);
  }

  // Strings.

  function Symbols(s: seq<Sextet>, urlSafe: bool): (r: string)
    ensures |r| == |s|
  {
    if s == [] then [] else [Symbol(s[0], urlSafe)] + Symbols(s[1..], urlSafe)
  }

  /** The values of the characters, if all of them have one. */
  function Values(text: string): (r: Option<seq<Sextet>>)
    ensures r.Some? ==> |r.value| == |text|
  {
    if text == "" then Some([])
    else
      var (v, rest) := (Value(text[0]), Values(text[1..]));
      if v.None? || rest.None? then None else Some([v.value] + rest.value)
  }

  lemma {:induction false} SymbolsHaveValues(s: seq<Sextet>, urlSafe: bool)
    ensures Values(Symbols(s, urlSafe)) == Some(s)
  {
    if s == [] {
    } else {
      SymbolHasValue(s[0], urlSafe);
      SymbolsHaveValues(s[1..], urlSafe);
      hide Symbol, Value;
      assert Symbols(s, urlSafe)[1..] == Symbols(s[1..], urlSafe);
      assert [s[0]] + s[1..] == s;
    }
  }

  function Encode(src: Data, urlSafe: bool): (r: string)
    decreases |src|
  {
    if src == [] then ""
    else if |src| <= 3 then Symbols(Sextets(src), urlSafe)
    else Symbols(Sextets(src[..3]), urlSafe) + Encode(src[3..], urlSafe)
  }

  function Decode(text: string): Option<Data>
    decreases |text|
  {
    if text == "" then Some([])
    else if |text| == 1 then None
    else if |text| <= 4 then
      var v := Values(text);
      if v.None? then None else Some(Bytes(v.value))
    else
      var (v, rest) := (Values(text[..4]), Decode(text[4..]));
      if v.None? || rest.None? then None else Some(Bytes(v.value) + rest.value)
  }

  /** Decoding returns what was encoded, whichever alphabet was used. */
  lemma {:induction false} EncodingReturns(src: Data, urlSafe: bool)
    ensures Decode(Encode(src, urlSafe)) == Some(src)
    ensures |src| > 0 ==> |Encode(src, urlSafe)| >= 2
    decreases |src|
  {
    hide Symbols, Sextets, Bytes, Values;
    if src == [] {
    } else {
      var n := if |src| <= 3 then |src| else 3;
      GroupReturns(src[..n]);
      SymbolsHaveValues(Sextets(src[..n]), urlSafe);
      assert src[..n] + src[n..] == src;
      var head := Symbols(Sextets(src[..n]), urlSafe);
      if |src| <= 3 {
        assert src[..n] == src;
      } else {
        EncodingReturns(src[3..], urlSafe);
        var text := Encode(src, urlSafe);
        assert text[..4] == head && text[4..] == Encode(src[3..], urlSafe);
      }
    }
  }

  /** An encoding is made of symbols only. */
  lemma {:induction false} EncodingIsSymbols(src: Data, urlSafe: bool)
    ensures forall c :: c in Encode(src, urlSafe) ==> IsSymbol(c)
    decreases |src|
  {
    hide Sextets;
    if src == [] {
    } else {
      SymbolsAreSymbols(Sextets(if |src| <= 3 then src else src[..3]), urlSafe);
      if |src| > 3 { EncodingIsSymbols(src[3..], urlSafe); }
    }
  }

  lemma {:induction false} SymbolsAreSymbols(s: seq<Sextet>, urlSafe: bool)
    ensures forall c :: c in Symbols(s, urlSafe) ==> IsSymbol(c)
  {
    if s == [] {
    } else {
      SymbolHasValue(s[0], urlSafe);
      SymbolsAreSymbols(s[1..], urlSafe);
      hide Symbol, IsSymbol;
    }
  }

  // The loops.

  lemma EncodeGroup(src: Data, urlSafe: bool)
    requires |src| >= 3
    ensures Encode(src, urlSafe) == Symbols(Sextets(src[..3]), urlSafe) + Encode(src[3..], urlSafe)
  {
    hide Symbols, Sextets;
    if |src| == 3 {
      assert src[..3] == src && Encode(src[3..], urlSafe) == "";
    }
  }

  lemma EncodeRest(src: Data, urlSafe: bool)
    requires |src| < 3
    ensures Encode(src, urlSafe) == if src == [] then "" else Symbols(Sextets(src), urlSafe)
  {
  }

  method EncodeTinc(src: Data, urlSafe: bool) returns (text: string)
    ensures text == Encode(src, urlSafe)
  {
    hide Symbols, Sextets, Encode, Symbol;
    text := "";
    var i := 0;
    while i + 3 <= |src|
      invariant i <= |src| && Encode(src, urlSafe) == text + Encode(src[i..], urlSafe)
    {
      var group := EncodeThree(src[i], src[i + 1], src[i + 2], urlSafe);
      EncodeGroup(src[i..], urlSafe);
      assert src[i..][..3] == [src[i], src[i + 1], src[i + 2]];
      assert src[i..][3..] == src[i + 3..];
      text := text + group;
      i := i + 3;
    }
    EncodeRest(src[i..], urlSafe);
    if |src| - i == 1 {
      GroupOfOne(src[i], urlSafe);
      assert src[i..] == [src[i]];
      text := text + [Symbol(src[i] % 64, urlSafe), Symbol(src[i] / 64 % 64, urlSafe)];
    } else if |src| - i == 2 {
      var group := EncodeTwo(src[i], src[i + 1], urlSafe);
      assert src[i..] == [src[i], src[i + 1]];
      text := text + group;
    }
  }

  method EncodeTwo(a: byte, b: byte, urlSafe: bool) returns (group: string)
    ensures group == Symbols(Sextets([a, b]), urlSafe)
  {
    hide Symbols, Sextets, Symbol;
    GroupOfTwo(a, b, urlSafe);
    var pair: nat := a as int + b as int * 0x100;
    group := [Symbol(pair % 64, urlSafe), Symbol(pair / 64 % 64, urlSafe), Symbol(pair / 64 / 64 % 64, urlSafe)];
  }

  method EncodeThree(a: byte, b: byte, c: byte, urlSafe: bool) returns (group: string)
    ensures group == Symbols(Sextets([a, b, c]), urlSafe)
  {
    hide Symbols, Sextets, Symbol;
    GroupOfThree(a, b, c, urlSafe);
    var triplet: nat := a as int + b as int * 0x100 + c as int * 0x1_0000;
    group := [Symbol(triplet % 64, urlSafe), Symbol(triplet / 64 % 64, urlSafe),
      Symbol(triplet / 64 / 64 % 64, urlSafe), Symbol(triplet / 64 / 64 / 64 % 64, urlSafe)];
  }

  /** The characters of a group one after the other. */
  method DecodeGroup(text: string) returns (r: Option<Data>)
    requires 2 <= |text| <= 4
    ensures r == var v := Values(text); if v.None? then None else Some(Bytes(v.value))
  {
    hide Value, Bytes;
    var v: seq<Sextet> := [];
    var i := |text|;
    while i > 0
      invariant 0 <= i <= |text| && Values(text[i..]) == Some(v)
    {
      i := i - 1;
      assert text[i..][1..] == text[i + 1..];
      var x := Value(text[i]);
      if x.None? {
        NoValue(text, i);
        return None;
      }
      v := [x.value] + v;
    }
    assert text[0..] == text;
    r := Some(Bytes(v));
  }

  lemma {:induction false} NoValue(text: string, i: nat)
    requires i < |text| && Value(text[i]).None?
    ensures Values(text).None?
  {
    if i == 0 {
    } else {
      NoValue(text[1..], i - 1);
    }
  }

  method DecodeTinc(text: string) returns (r: Option<Data>)
    ensures r == Decode(text)
  {
    hide Values, Bytes;
    var data: Data, i := [], 0;
    assert text[0..] == text;
    if Decode(text).Some? { assert data + Decode(text).value == Decode(text).value; }
    while i + 4 <= |text|
      invariant i <= |text|
      invariant Decode(text) == var rest := Decode(text[i..]); if rest.None? then None else Some(data + rest.value)
    {
      var quad := text[i..i + 4];
      var group := DecodeGroup(quad);
      assert text[i..][..4] == quad && text[i..][4..] == text[i + 4..];
      DecodeQuad(text[i..]);
      if group.None? {
        return None;
      }
      ghost var rest := Decode(text[i + 4..]);
      if rest.Some? { assert data + (group.value + rest.value) == data + group.value + rest.value; }
      data := data + group.value;
      i := i + 4;
    }
    var left := text[i..];
    if |left| == 0 {
      assert data + [] == data;
      r := Some(data);
    } else if |left| == 1 {
      r := None;
    } else {
      var group := DecodeGroup(left);
      r := if group.None? then None else Some(data + group.value);
    }
  }

  lemma DecodeQuad(text: string)
    requires |text| >= 4
    ensures Decode(text) == var (v, rest) := (Values(text[..4]), Decode(text[4..]));
                            if v.None? || rest.None? then None else Some(Bytes(v.value) + rest.value)
  {
    hide Values, Bytes;
    if |text| == 4 {
      assert text[..4] == text && text[4..] == "" && Decode("") == Some([]);
      if Values(text).Some? { assert Bytes(Values(text).value) + [] == Bytes(Values(text).value); }
    }
  }

  lemma {:induction false} SymbolsAt(s: seq<Sextet>, urlSafe: bool, i: nat)
    requires i < |s|
    ensures Symbols(s, urlSafe)[i] == Symbol(s[i], urlSafe)
  {
    if i == 0 {
    } else {
      SymbolsAt(s[1..], urlSafe, i - 1);
    }
  }

  lemma {:induction false} SextetAt(t: nat, n: nat, i: nat)
    requires i < n && i < 4
    ensures ToSextets(t, n)[i] == (if i == 0 then t else if i == 1 then t / 64 else if i == 2 then t / 64 / 64
              else t / 64 / 64 / 64) % 64
  {
    if i == 0 {
    } else {
      SextetAt(t / 64, n - 1, i - 1);
    }
  }

  lemma GroupOf(bytes: Data, t: nat, urlSafe: bool, i: nat)
    requires 1 <= |bytes| <= 3 && FromBytes(bytes) == t && i <= |bytes|
    ensures Symbols(Sextets(bytes), urlSafe)[i]
         == Symbol((if i == 0 then t else if i == 1 then t / 64 else if i == 2 then t / 64 / 64
           else t / 64 / 64 / 64) % 64, urlSafe)
  {
    hide Symbols, ToSextets, FromBytes, Symbol;
    SextetAt(t, |bytes| + 1, i);
    SymbolsAt(Sextets(bytes), urlSafe, i);
  }

  lemma LittleTwo(a: byte, b: byte)
    ensures FromBytes([a]) == a && FromBytes([a, b]) == a as int + b as int * 0x100
  {
    var none: Data := [];
    assert [a][1..] == none && [a, b][1..] == [b] && [b][1..] == none;
    assert FromBytes([b]) == b;
  }

  lemma Little(a: byte, b: byte, c: byte)
    ensures FromBytes([a]) == a && FromBytes([a, b]) == a as int + b as int * 0x100
    ensures FromBytes([a, b, c]) == a as int + b as int * 0x100 + c as int * 0x1_0000
  {
    LittleTwo(a, b);
    LittleTwo(b, c);
    assert [a, b, c][1..] == [b, c];
  }

  lemma GroupOfOne(a: byte, urlSafe: bool)
    ensures Symbols(Sextets([a]), urlSafe) == [Symbol(a % 64, urlSafe), Symbol(a / 64 % 64, urlSafe)]
  {
    hide Symbols, Sextets, Symbol, FromBytes;
    Little(a, 0, 0);
    GroupOf([a], a, urlSafe, 0);
    GroupOf([a], a, urlSafe, 1);
  }

  lemma GroupOfTwo(a: byte, b: byte, urlSafe: bool)
    ensures var t := a as int + b as int * 0x100;
            Symbols(Sextets([a, b]), urlSafe)
              == [Symbol(t % 64, urlSafe), Symbol(t / 64 % 64, urlSafe), Symbol(t / 64 / 64 % 64, urlSafe)]
  {
    hide Symbols, Sextets, Symbol, FromBytes;
    Little(a, b, 0);
    var t := a as int + b as int * 0x100;
    GroupOf([a, b], t, urlSafe, 0);
    GroupOf([a, b], t, urlSafe, 1);
    GroupOf([a, b], t, urlSafe, 2);
  }

  lemma GroupOfThree(a: byte, b: byte, c: byte, urlSafe: bool)
    ensures var t := a as int + b as int * 0x100 + c as int * 0x1_0000;
            Symbols(Sextets([a, b, c]), urlSafe)
              == [Symbol(t % 64, urlSafe), Symbol(t / 64 % 64, urlSafe), Symbol(t / 64 / 64 % 64, urlSafe),
                Symbol(t / 64 / 64 / 64 % 64, urlSafe)]
  {
    hide Symbols, Sextets, Symbol, FromBytes;
    Little(a, b, c);
    var t := a as int + b as int * 0x100 + c as int * 0x1_0000;
    forall i | 0 <= i < 4 ensures Symbols(Sextets([a, b, c]), urlSafe)[i]
         == Symbol((if i == 0 then t else if i == 1 then t / 64 else if i == 2 then t / 64 / 64
           else t / 64 / 64 / 64) % 64, urlSafe) {
      GroupOf([a, b, c], t, urlSafe, i);
    }
  }
}
