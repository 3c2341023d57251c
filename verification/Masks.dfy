/** Address prefixes: comparing, clearing and checking the bits behind a mask, a byte at a time. */
module Masks {
  import opened Basics

  /** Bit `i` of a number, the least significant first. */
  function LowBit(x: nat, i: nat): nat {
    if i == 0 then x % 2 else LowBit(x / 2, i - 1)
  }

  /** The number with its `n` lowest bits cleared. */
  function ClearLow(x: nat, n: nat): (r: nat)
    ensures r <= x
  {
    if n == 0 then x else 2 * ClearLow(x / 2, n - 1)
  }

  /** A byte under the mask that keeps its first `bits` bits. */
  function KeepTop(b: byte, bits: nat): byte
    requires bits <= 8
  {
    ClearLow(b, 8 - bits)
  }

  lemma {:induction false} ClearedBits(x: nat, n: nat, i: nat)
    ensures LowBit(ClearLow(x, n), i) == if i < n then 0 else LowBit(x, i)
  {
    if n == 0 || i == 0 {
    } else {
      ClearedBits(x / 2, n - 1, i - 1);
    }
  }

  ghost predicate TopAgrees(x: nat, y: nat, n: nat, width: nat) {
    forall i | n <= i < width :: LowBit(x, i) == LowBit(y, i)
  }

  lemma TopAgreesHalved(x: nat, y: nat, n: nat, width: nat)
    requires width > 0
    ensures TopAgrees(x, y, n, width)
            <==> (TopAgrees(x / 2, y / 2, if n == 0 then 0 else n - 1, width - 1) && (n == 0 ==> x % 2 == y % 2))
  {
    var m := if n == 0 then 0 else n - 1;
    if TopAgrees(x, y, n, width) {
      forall i | m <= i < width - 1 ensures LowBit(x / 2, i) == LowBit(y / 2, i) {
        assert LowBit(x, i + 1) == LowBit(y, i + 1);
      }
      assert n == 0 ==> LowBit(x, 0) == LowBit(y, 0);
    }
    if TopAgrees(x / 2, y / 2, m, width - 1) && (n == 0 ==> x % 2 == y % 2) {
      forall i | n <= i < width ensures LowBit(x, i) == LowBit(y, i) {
        if i > 0 { assert LowBit(x / 2, i - 1) == LowBit(y / 2, i - 1); }
      }
    }
  }

  /** Numbers of `width` bits are equal once their `n` lowest bits are cleared exactly when their other bits agree. */
  lemma {:induction false} ClearedEqual(x: nat, y: nat, n: nat, width: nat)
    requires x < Power(2, width) && y < Power(2, width)
    ensures ClearLow(x, n) == ClearLow(y, n) <==> TopAgrees(x, y, n, width)
    decreases width
  {
    if width == 0 {
    } else {
      ClearedEqual(x / 2, y / 2, if n == 0 then 0 else n - 1, width - 1);
      TopAgreesHalved(x, y, n, width);
      hide LowBit;
      assert x == 2 * (x / 2) + x % 2 && y == 2 * (y / 2) + y % 2;
    }
  }

  lemma PowerOfEight()
    ensures Power(2, 8) == 256
  {
    assert Power(2, 4) == 16;
  }

  /** The first `bits` bits of two bytes. */
  lemma KeptEqual(x: byte, y: byte, bits: nat)
    requires bits <= 8
    ensures KeepTop(x, bits) == KeepTop(y, bits) <==> TopAgrees(x, y, 8 - bits, 8)
  {
    PowerOfEight();
    ClearedEqual(x, y, 8 - bits, 8);
  }

  // Addresses. The most significant bit of the first byte is the first bit of the address.

  /** How many bits of a prefix lie in byte `k`. */
  function BitsIn(length: nat, k: nat): (bits: nat)
    ensures bits <= 8
  {
    if 8 * (k + 1) <= length then 8 else if 8 * k >= length then 0 else length - 8 * k
  }

  /** The first `length` bits are the same. */
  ghost predicate SamePrefix(a: Data, b: Data, length: nat)
    requires |a| == |b|
  {
    forall k | 0 <= k < |a| :: TopAgrees(a[k], b[k], 8 - BitsIn(length, k), 8)
  }

  ghost predicate LowClear(x: nat, n: nat) { forall i | 0 <= i < n :: LowBit(x, i) == 0 }

  /** All bits behind the first `length` are clear. */
  ghost predicate PrefixOnly(a: Data, length: nat) {
    forall k | 0 <= k < |a| :: LowClear(a[k], 8 - BitsIn(length, k))
  }

  lemma PrefixByBytes(a: Data, b: Data, length: nat)
    requires |a| == |b|
    ensures SamePrefix(a, b, length)
            <==> forall k | 0 <= k < |a| :: KeepTop(a[k], BitsIn(length, k)) == KeepTop(b[k], BitsIn(length, k))
  {
    hide KeepTop, LowBit, TopAgrees;
    forall k | 0 <= k < |a|
      ensures KeepTop(a[k], BitsIn(length, k)) == KeepTop(b[k], BitsIn(length, k))
              <==> TopAgrees(a[k], b[k], 8 - BitsIn(length, k), 8)
    {
      KeptEqual(a[k], b[k], BitsIn(length, k));
    }
  }

  lemma WholeAndEmpty(x: byte)
    ensures KeepTop(x, 8) == x && KeepTop(x, 0) == 0
  {
    PowerOfEight();
    AllCleared(x, 8);
  }

  lemma {:induction false} AllCleared(x: nat, n: nat)
    requires x < Power(2, n)
    ensures ClearLow(x, n) == 0
  {
    if n == 0 {
    } else {
      AllCleared(x / 2, n - 1);
    }
  }

  // The functions.

  function MaskCmp(a: Data, b: Data, length: nat): int
    requires |a| == |b| && length <= 8 * |a|
  {
    CmpFrom(a, b, length, 0)
  }

  /** The comparison from byte `k` on, all the bytes before being equal. */
  function CmpFrom(a: Data, b: Data, length: nat, k: nat): int
    requires |a| == |b| && 8 * k <= length <= 8 * |a|
    decreases |a| - k
  {
    if length < 8 * (k + 1) then
      if length == 8 * k then 0 else KeepTop(a[k], length - 8 * k) - KeepTop(b[k], length - 8 * k)
    else if a[k] != b[k] then a[k] as int - b[k]
    else CmpFrom(a, b, length, k + 1)
  }

  /** The address with everything behind the prefix cleared. */
  function Masked(a: Data, length: nat): Data {
    seq(|a|, k requires 0 <= k < |a| => KeepTop(a[k], BitsIn(length, k)))
  }

  method CompareMasked(a: Data, b: Data, length: nat) returns (r: int)
    requires |a| == |b| && length <= 8 * |a|
    ensures r == MaskCmp(a, b, length)
  {
    var full, partial := length / 8, length % 8;
    var i := 0;
    while i < full
      invariant i <= full && CmpFrom(a, b, length, 0) == CmpFrom(a, b, length, i)
    {
      if a[i] != b[i] {
        return a[i] as int - b[i];
      }
      i := i + 1;
    }
    if partial == 0 {
      return 0;
    }
    r := KeepTop(a[full], partial) as int - KeepTop(b[full], partial);
  }

  method MaskBytes(bytes: array<byte>, length: nat)
    requires length <= 8 * bytes.Length
    modifies bytes
    ensures bytes[..] == Masked(old(bytes[..]), length)
  {
    hide KeepTop;
    var i, partial := length / 8, length % 8;
    forall k | 0 <= k < bytes.Length ensures KeepTop(bytes[k], 8) == bytes[k] && KeepTop(bytes[k], 0) == 0 {
      WholeAndEmpty(bytes[k]);
    }
    if partial != 0 {
      bytes[i] := KeepTop(bytes[i], partial);
      i := i + 1;
    }
    while i < bytes.Length
      invariant length <= 8 * i && i <= bytes.Length
      invariant forall k :: 0 <= k < i ==> bytes[k] == KeepTop(old(bytes[k]), BitsIn(length, k))
      invariant forall k :: i <= k < bytes.Length ==> bytes[k] == old(bytes[k])
    {
      bytes[i] := 0;
      i := i + 1;
    }
  }

  method MaskCheck(a: Data, length: nat) returns (canonical: bool)
    requires length <= 8 * |a|
    ensures canonical <==> a == Masked(a, length)
  {
    hide KeepTop;
    var i, partial := length / 8, length % 8;
    forall k | 0 <= k < |a| ensures KeepTop(a[k], 8) == a[k] && KeepTop(a[k], 0) == 0 { WholeAndEmpty(a[k]); }
    var m := Masked(a, length);
    if partial != 0 {
      if a[i] as int - KeepTop(a[i], partial) != 0 {
        assert m[i] != a[i];
        return false;
      }
      i := i + 1;
    }
    while i < |a|
      invariant length <= 8 * i && i <= |a|
      invariant forall k :: 0 <= k < i ==> a[k] == m[k]
    {
      if a[i] != 0 {
        assert m[i] == 0;
        return false;
      }
      i := i + 1;
    }
    canonical := true;
  }

  // What they mean.

  lemma {:induction false} CmpIsZero(a: Data, b: Data, length: nat, k: nat)
    requires |a| == |b| && 8 * k <= length <= 8 * |a|
    ensures CmpFrom(a, b, length, k) == 0
       <==> forall i | k <= i < |a| :: KeepTop(a[i], BitsIn(length, i)) == KeepTop(b[i], BitsIn(length, i))
    decreases |a| - k
  {
    hide KeepTop;
    forall i | k <= i < |a| ensures KeepTop(a[i], 8) == a[i] && KeepTop(a[i], 0) == 0 && KeepTop(b[i], 8) == b[i]
      && KeepTop(b[i], 0) == 0 {
      WholeAndEmpty(a[i]);
      WholeAndEmpty(b[i]);
    }
    if length < 8 * (k + 1) {
      assert forall i | k < i < |a| :: BitsIn(length, i) == 0;
      if k < |a| { assert BitsIn(length, k) == length - 8 * k; }
    } else {
      assert BitsIn(length, k) == 8;
      if a[k] == b[k] { CmpIsZero(a, b, length, k + 1); }
    }
  }

  /** The comparison is zero exactly when the prefixes have the same bits, and exactly when masking makes the addresses
      equal. */
  lemma ZeroMeansSamePrefix(a: Data, b: Data, length: nat)
    requires |a| == |b| && length <= 8 * |a|
    ensures MaskCmp(a, b, length) == 0 <==> SamePrefix(a, b, length)
    ensures MaskCmp(a, b, length) == 0 <==> Masked(a, length) == Masked(b, length)
  {
    CmpIsZero(a, b, length, 0);
    PrefixByBytes(a, b, length);
    hide KeepTop, LowBit;
    var m, n := Masked(a, length), Masked(b, length);
    forall k | 0 <= k < |a| ensures m[k] == KeepTop(a[k], BitsIn(length, k))
      && n[k] == KeepTop(b[k], BitsIn(length, k)) { }
    if m == n {
      forall k | 0 <= k < |a| ensures KeepTop(a[k], BitsIn(length, k)) == KeepTop(b[k], BitsIn(length, k)) {
        assert m[k] == n[k];
      }
    }
  }

  /** Masking keeps the prefix, clears the rest, and changes nothing when there is nothing behind the prefix. */
  lemma MaskedBits(a: Data, length: nat)
    ensures |Masked(a, length)| == |a| && SamePrefix(Masked(a, length), a, length)
            && PrefixOnly(Masked(a, length), length)
    ensures Masked(a, length) == a <==> PrefixOnly(a, length)
  {
    var m := Masked(a, length);
    hide KeepTop, LowBit, TopAgrees, LowClear;
    forall k | 0 <= k < |a|
      ensures TopAgrees(m[k], a[k], 8 - BitsIn(length, k), 8) && LowClear(m[k], 8 - BitsIn(length, k))
      ensures LowClear(a[k], 8 - BitsIn(length, k)) ==> m[k] == a[k]
    {
      KeptBits(a[k], BitsIn(length, k));
    }
  }

  lemma KeptBits(x: byte, bits: nat)
    requires bits <= 8
    ensures TopAgrees(KeepTop(x, bits), x, 8 - bits, 8) && LowClear(KeepTop(x, bits), 8 - bits)
    ensures LowClear(x, 8 - bits) ==> KeepTop(x, bits) == x
  {
    var y, n := KeepTop(x, bits), 8 - bits;
    forall i | 0 <= i < 8 ensures LowBit(y, i) == if i < n then 0 else LowBit(x, i) { ClearedBits(x, n, i); }
    if LowClear(x, n) {
      assert TopAgrees(y, x, 0, 8);
      PowerOfEight();
      ClearedEqual(y, x, 0, 8);
    }
  }
}
