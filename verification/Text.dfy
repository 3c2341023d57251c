/** Words and numbers in text: splitting at white space, and decimal and hexadecimal notation. */
module Text {
  import opened Basics

  // White space.

  predicate AsciiWhite(c: char) { c == ' ' || c == '\t' || c == '\n' || c == '\r' || c as int == 12 }

  /** White space as Unicode defines it. */
  predicate White(c: char) {
    var n := c as int;
    || 9 <= n <= 13 || n == 32 || n == 0x85 || n == 0xa0 || n == 0x1680 || 0x2000 <= n <= 0x200a || n == 0x2028
      || n == 0x2029
    || n == 0x202f || n == 0x205f || n == 0x3000
  }

  /** The position of the first character that is not white. */
  function WhiteLength(s: string): (n: nat)
    ensures n <= |s|
  {
    if s == "" || !White(s[0]) then 0 else 1 + WhiteLength(s[1..])
  }

  function WordLength(s: string): (n: nat)
    ensures n <= |s|
    ensures s != "" && !White(s[0]) ==> n > 0
  {
    if s == "" || White(s[0]) then 0 else 1 + WordLength(s[1..])
  }

  /** The words between white space. */
  function Split(s: string): seq<string>
    decreases |s|
  {
    var t := s[WhiteLength(s)..];
    if t == "" then []
    else
      TrimmedStarts(s);
      [t[..WordLength(t)]] + Split(t[WordLength(t)..])
  }

  lemma {:induction false} TrimmedStarts(s: string)
    ensures var t := s[WhiteLength(s)..]; t != "" ==> !White(t[0])
  {
    if s == "" || !White(s[0]) {
    } else {
      TrimmedStarts(s[1..]);
    }
  }

  function Join(fields: seq<string>): string {
    if fields == [] then "" else if |fields| == 1 then fields[0] else fields[0] + " " + Join(fields[1..])
  }

  predicate IsWord(w: string) { w != "" && forall i :: 0 <= i < |w| ==> !White(w[i]) }

  predicate AllWords(fields: seq<string>) { forall i :: 0 <= i < |fields| ==> IsWord(fields[i]) }

  lemma {:induction false} WordIsWhole(w: string, rest: string)
    requires forall i :: 0 <= i < |w| ==> !White(w[i])
    requires rest == "" || White(rest[0])
    ensures WordLength(w + rest) == |w|
  {
    if w == "" {
      assert w + rest == rest;
    } else {
      assert (w + rest)[1..] == w[1..] + rest;
      WordIsWhole(w[1..], rest);
    }
  }

  lemma SplitWord(w: string, rest: string)
    requires IsWord(w) && (rest == "" || White(rest[0]))
    ensures Split(w + rest) == [w] + Split(rest)
  {
    WordIsWhole(w, rest);
    assert (w + rest)[0] == w[0];
    assert WhiteLength(w + rest) == 0 && (w + rest)[0..] == w + rest;
    assert (w + rest)[..|w|] == w && (w + rest)[|w|..] == rest;
  }

  lemma SplitSpace(rest: string)
    ensures Split(" " + rest) == Split(rest)
  {
    assert (" " + rest)[1..] == rest;
    assert (" " + rest)[WhiteLength(" " + rest)..] == rest[WhiteLength(rest)..];
  }

  /** The fields that are not empty. */
  function NonEmpty(fields: seq<string>): seq<string> {
    if fields == [] then [] else (if fields[0] == "" then [] else [fields[0]]) + NonEmpty(fields[1..])
  }

  /** What is joined by single spaces is split into the same words; an empty field is lost. */
  lemma {:induction false} SplitJoin(fields: seq<string>)
    requires AllWords(NonEmpty(fields))
    ensures Split(Join(fields)) == NonEmpty(fields)
  {
    hide Split, IsWord, Join, AllWords;
    JoinUnfolds(fields);
    if fields == [] {
      SplitNothing();
    } else {
      var rest := if |fields| == 1 then "" else " " + Join(fields[1..]);
      RestAreWords(fields);
      if |fields| == 1 {
        SplitNothing();
      } else {
        SplitJoin(fields[1..]);
        SplitSpace(Join(fields[1..]));
      }
      assert Split(rest) == NonEmpty(fields[1..]);
      if fields[0] == "" {
        assert fields[0] + rest == rest;
      } else {
        SplitWord(fields[0], rest);
      }
    }
  }

  lemma JoinUnfolds(fields: seq<string>)
    ensures fields == [] ==> Join(fields) == ""
    ensures fields != [] ==> Join(fields) == fields[0] + if |fields| == 1 then "" else " " + Join(fields[1..])
  {
  }

  lemma RestAreWords(fields: seq<string>)
    requires fields != [] && AllWords(NonEmpty(fields))
    ensures AllWords(NonEmpty(fields[1..])) && (fields[0] != "" ==> IsWord(fields[0]))
  {
    hide IsWord;
    var all, rest := NonEmpty(fields), NonEmpty(fields[1..]);
    if fields[0] != "" {
      assert all[0] == fields[0];
      forall i | 0 <= i < |rest| ensures IsWord(rest[i]) { assert all[i + 1] == rest[i]; }
    } else {
      assert all == rest;
    }
  }

  lemma {:induction false} WordsAreKept(fields: seq<string>)
    requires AllWords(fields)
    ensures NonEmpty(fields) == fields
  {
    if fields == [] {
    } else {
      assert IsWord(fields[0]);
      WordsAreKept(fields[1..]);
    }
  }

  lemma SplitNothing()
    ensures Split("") == []
  {
  }

  // Numbers.

  /** The value of a digit below `base`. */
  function Digit(c: char, base: nat): Option<nat> {
    var v := if '0' <= c <= '9' then c as int - '0' as int
             else if 'a' <= c <= 'f' then c as int - 'a' as int + 10
             else if 'A' <= c <= 'F' then c as int - 'A' as int + 10 else 99;
    if v < base then Some(v) else None
  }

  function DigitChar(v: nat): char
    requires v < 16
  {
    if v < 10 then ('0' as int + v) as char else ('a' as int + v - 10) as char
  }

  /** The value of a string of digits. */
  function Digits(s: string, base: nat): (r: Option<nat>) {
    if s == "" then Some(0)
    else
      var (high, low) := (Digits(s[..|s| - 1], base), Digit(s[|s| - 1], base));
      if high.None? || low.None? then None else Some(high.value * base + low.value)
  }

  /** A number in lower-case digits, without leading zeros. */
  function Show(n: nat, base: nat): (s: string)
    requires 2 <= base <= 16
    ensures s != ""
  {
    if n < base then [DigitChar(n)] else
      QuotientIsLess(n, base);
      Show(n / base, base) + [DigitChar(n % base)]
  }

  lemma QuotientIsLess(n: nat, base: nat)
    requires 2 <= base <= n
    ensures n / base < n
  {
    Quotient(n, base);
    TimesAtLeastTwice(base, n / base);
  }

  lemma Quotient(n: nat, base: nat)
    requires base > 0
    ensures n == base * (n / base) + n % base && n % base < base && n / base >= 0
  {
  }

  lemma TimesAtLeastTwice(base: nat, q: nat)
    requires base >= 2
    ensures base * q >= 2 * q
  {
    assert base * q == 2 * q + (base - 2) * q;
  }

  function ShowInt(n: int): string { if n < 0 then "-" + Show(-n, 10) else Show(n, 10) }

  lemma DigitReturns(v: nat, base: nat)
    requires v < base <= 16
    ensures Digit(DigitChar(v), base) == Some(v)
  {
  }

  lemma {:induction false} ShowReturns(n: nat, base: nat)
    requires 2 <= base <= 16
    ensures Digits(Show(n, base), base) == Some(n)
    ensures Digit(Show(n, base)[0], base).Some?
    decreases n
  {
    hide Digit, DigitChar;
    if n < base {
      DigitReturns(n, base);
      var s := Show(n, base);
      assert s[..|s| - 1] == "" && Digits("", base) == Some(0);
    } else {
      QuotientIsLess(n, base);
      ShowReturns(n / base, base);
      DigitReturns(n % base, base);
      Quotient(n, base);
      LastDigit(Show(n / base, base), DigitChar(n % base), base, n / base, n % base);
    }
  }

  lemma LastDigit(s: string, c: char, base: nat, high: nat, low: nat)
    requires Digits(s, base) == Some(high) && Digit(c, base) == Some(low)
    ensures Digits(s + [c], base) == Some(high * base + low)
  {
    hide Digit;
    assert (s + [c])[..|s|] == s;
  }

  /** Every character of a number is a digit. */
  lemma {:induction false} ShowIsDigits(n: nat, base: nat)
    requires 2 <= base <= 16
    ensures forall i :: 0 <= i < |Show(n, base)| ==> Digit(Show(n, base)[i], base).Some?
    decreases n
  {
    hide Digit, DigitChar;
    DigitReturns(n % base, base);
    if n < base {
      assert n % base == n;
    } else {
      QuotientIsLess(n, base);
      ShowIsDigits(n / base, base);
    }
  }

  lemma DigitIsPlain(c: char, base: nat)
    requires Digit(c, base).Some? && base <= 16
    ensures !White(c) && c != '-' && c != '+' && c != 'x' && c != 'X' && c != '.'
  {
  }

  lemma ShowIsWord(n: nat, base: nat)
    requires 2 <= base <= 16
    ensures IsWord(Show(n, base))
    ensures forall i :: 0 <= i < |Show(n, base)| ==>
              var c := Show(n, base)[i]; c != '-' && c != '+' && c != 'x' && c != 'X' && c != '.'
  {
    hide Show, Digit, White;
    ShowIsDigits(n, base);
    var s := Show(n, base);
    forall i | 0 <= i < |s| ensures !White(s[i]) && s[i] != '-' && s[i] != '+' && s[i] != 'x' && s[i] != 'X'
      && s[i] != '.' {
      DigitIsPlain(s[i], base);
    }
  }

  lemma ShowIntIsWord(n: int)
    ensures IsWord(ShowInt(n))
    ensures forall i :: 0 <= i < |ShowInt(n)| ==> ShowInt(n)[i] != '.'
  {
    hide Show;
    ShowIsWord(if n < 0 then -n else n, 10);
  }

  /** A decimal number between `low` and `high`, with an optional sign. */
  function ParseInt(s: string, low: int, high: int): Option<int> {
    var (negative, digits) := if s != "" && s[0] == '-' then (true, s[1..]) else if s != "" && s[0] == '+'
      then (false, s[1..]) else (false, s);
    var v := Digits(digits, 10);
    if digits == "" || v.None? then None
    else
      var n: int := if negative then 0 - v.value as int else v.value;
      if low <= n <= high then Some(n) else None
  }

  lemma IntReturns(n: int, low: int, high: int)
    requires low <= n <= high
    ensures ParseInt(ShowInt(n), low, high) == Some(n)
  {
    hide Show, Digits;
    var m := if n < 0 then -n else n;
    ShowReturns(m, 10);
    ShowIsWord(m, 10);
    if n < 0 { assert ShowInt(n)[1..] == Show(m, 10); }
  }

  const MIN_I32 := -0x8000_0000
  const MAX_I32 := 0x7fff_ffff
  const MAX_U64 := 0xffff_ffff_ffff_ffff

  function ParseI32(s: string): Option<int> { ParseInt(s, MIN_I32, MAX_I32) }

  /** A hexadecimal number of 32 bits, with an optional prefix. */
  function ParseHex(s: string): Option<nat> {
    var t := if |s| >= 2 && s[0] == '0' && (s[1] == 'x' || s[1] == 'X') then s[2..] else s;
    var digits := if t != "" && t[0] == '+' then t[1..] else t;
    var v := Digits(digits, 16);
    if digits == "" || v.None? || v.value > MAX_U32 then None else v
  }

  lemma HexReturns(n: nat)
    requires n <= MAX_U32
    ensures ParseHex(Show(n, 16)) == Some(n)
  {
    hide Show, Digits;
    ShowReturns(n, 16);
    ShowIsWord(n, 16);
  }

  /** A 64-bit number; too large a one saturates, and a sign wraps it around. */
  function ParseU64(s: string): Option<nat> {
    var (negative, digits) := if s != "" && s[0] == '-' then (true, s[1..]) else if s != "" && s[0] == '+'
      then (false, s[1..]) else (false, s);
    var v := Digits(digits, 10);
    if digits == "" || v.None? then None
    else
      var n := if v.value > MAX_U64 then MAX_U64 else v.value;
      Some(if negative && n > 0 then MAX_U64 + 1 - n else n)
  }

  lemma U64Returns(n: nat)
    requires n <= MAX_U64
    ensures ParseU64(ShowInt(n)) == Some(n)
  {
    hide Show, Digits;
    ShowReturns(n, 10);
    ShowIsWord(n, 10);
  }
}
