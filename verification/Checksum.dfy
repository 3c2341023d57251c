/** Internet checksums: 16-bit ones' complement sums, computed in full or updated for one changed word. */
module Checksum {
  import opened Basics

  type u16 = x: nat | x <= 0xffff

  const ONES: u16 := 0xffff

  function Word(high: byte, low: byte): u16 { high * 256 + low }

  function High(w: u16): (b: byte)
    ensures b * 256 + Low(w) == w
  {
    w / 256
  }

  function Low(w: u16): byte { w % 256 }

  function Complement(x: u16): u16 { ONES - x }

  /** The sum of the big-endian words. A last odd byte is added in the low position. */
  function WordSum(data: Data): nat {
    if |data| >= 2 then Word(data[0], data[1]) + WordSum(data[2..])
    else if |data| == 1 then data[0]
    else 0
  }

  /** The carries added back in until none is left. */
  function Fold(x: nat): u16 {
    if x <= ONES then x else Fold(x % 0x1_0000 + x / 0x1_0000)
  }

  function InternetChecksum(data: Data, previous: u16): u16 {
    Complement(Fold(Complement(previous) + WordSum(data)))
  }

  /** A receiver accepts data whose words, checksum included, sum to all ones. */
  predicate Verifies(data: Data) { InternetChecksum(data, ONES) == 0 }

  /** The value of `x` in ones' complement arithmetic: zero only for zero, otherwise from 1 to 0xffff modulo 0xffff. */
  function Residue(x: nat): u16 { if x == 0 then 0 else 1 + (x - 1) % ONES }

  /** `x` and `y` are the same modulo 0xffff. */
  ghost predicate Same(x: int, y: int) { (x - y) % ONES == 0 }

  lemma SameAdds(x: int, y: int, u: int, v: int)
    requires Same(x, y) && Same(u, v)
    ensures Same(x + u, y + v) && Same(x - u, y - v) && Same(y, x)
  {
    var a, b := (x - y) / ONES, (u - v) / ONES;
    assert x - y == ONES * a && u - v == ONES * b;
    assert (x + u) - (y + v) == ONES * (a + b) && (x - u) - (y - v) == ONES * (a - b) && y - x == ONES * -a;
    MultipleIsSame(x + u, y + v, a + b);
    MultipleIsSame(x - u, y - v, a - b);
    MultipleIsSame(y, x, -a);
  }

  lemma MultipleIsSame(x: int, y: int, k: int)
    requires x - y == ONES * k
    ensures Same(x, y)
  {
    assert (ONES * k) % ONES == 0;
  }

  lemma SameIsTransitive(x: int, y: int, z: int)
    requires Same(x, y) && Same(y, z)
    ensures Same(x, z)
  {
    SameAdds(x, y, y, z);
    var k := (x + y - (y + z)) / ONES;
    assert x + y - (y + z) == x - z == ONES * k;
    MultipleIsSame(x, z, k);
  }

  lemma ResidueIsSame(x: nat)
    ensures Same(Residue(x), x) && (Residue(x) == 0 <==> x == 0)
  {
    if x > 0 {
      var k := (x - 1) / ONES;
      assert x - 1 == ONES * k + (x - 1) % ONES;
      MultipleIsSame(Residue(x), x, -k);
    } else {
      MultipleIsSame(0, 0, 0);
    }
  }

  /** Two positive sums that are the same modulo 0xffff have one value. */
  lemma SameResidue(x: nat, y: nat)
    requires Same(x, y) && (x == 0 <==> y == 0)
    ensures Residue(x) == Residue(y)
  {
    ResidueIsSame(x);
    ResidueIsSame(y);
    SameIsTransitive(Residue(x), x, y);
    SameAdds(Residue(y), y, 0, 0);
    SameIsTransitive(Residue(x), y, Residue(y));
    var d := Residue(x) - Residue(y);
    assert d % ONES == 0;
    assert d < ONES && -d < ONES;
  }

  lemma {:induction false} FoldIsResidue(x: nat)
    ensures Fold(x) == Residue(x)
  {
    if x <= ONES {
    } else {
      var y := x % 0x1_0000 + x / 0x1_0000;
      FoldIsResidue(y);
      assert x == 0x1_0000 * (x / 0x1_0000) + x % 0x1_0000;
      MultipleIsSame(x, y, x / 0x1_0000);
      SameResidue(x, y);
    }
  }

  lemma VerifiesMeans(data: Data)
    ensures Verifies(data) <==> WordSum(data) > 0 && Same(WordSum(data), 0)
  {
    var s := WordSum(data);
    FoldIsResidue(s);
    ResidueIsSame(s);
    if s > 0 && Same(s, 0) {
      MultipleIsSame(ONES, 0, 1);
      SameAdds(ONES, 0, 0, 0);
      SameIsTransitive(s, 0, ONES);
      SameResidue(s, ONES);
    }
    if Verifies(data) {
      assert Residue(s) == ONES;
      MultipleIsSame(0, ONES, -1);
      SameAdds(ONES, s, 0, 0);
      SameIsTransitive(s, ONES, ONES) by { SameAdds(s, ONES, 0, 0); MultipleIsSame(ONES, ONES, 0); }
      MultipleIsSame(ONES, 0, 1);
      SameIsTransitive(s, ONES, 0);
    }
  }

  /** What a change by `d` of byte `i` adds to the sum. */
  function Weighed(length: nat, i: nat, d: int): int { if i % 2 == 0 && i + 1 < length then 256 * d else d }

  lemma {:induction false} SetByte(data: Data, i: nat, b: byte)
    requires i < |data|
    ensures WordSum(data[i := b]) == WordSum(data) as int + Weighed(|data|, i, b as int - data[i])
  {
    if i >= 2 {
      assert data[i := b][2..] == data[2..][i - 2 := b];
      SetByte(data[2..], i - 2, b);
    } else {
      assert |data| >= 2 ==> data[i := b][2..] == data[2..];
    }
  }

  /** `data` with a big-endian word written at `i`. */
  function WithWord(data: Data, i: nat, w: u16): (r: Data)
    requires i + 2 <= |data|
    ensures |r| == |data|
  {
    data[i := High(w)][i + 1 := Low(w)]
  }

  function WordAt(data: Data, i: nat): u16
    requires i + 2 <= |data|
  {
    Word(data[i], data[i + 1])
  }

  function Swapped(w: u16): u16 { Word(Low(w), High(w)) }

  lemma WithWordSum(data: Data, i: nat, w: u16)
    requires i + 2 <= |data|
    ensures WordSum(WithWord(data, i, w)) == WordSum(data) as int + Weighed(|data|, i, High(w) as int - data[i])
              + Weighed(|data|, i + 1, Low(w) as int - data[i + 1])
  {
    hide WordSum, Weighed, High, Low;
    SetByte(data, i, High(w));
    SetByte(data[i := High(w)], i + 1, Low(w));
  }

  lemma WordOf(w: u16, high: byte, low: byte)
    ensures Word(High(w), Low(w)) == w
    ensures High(Word(high, low)) == high && Low(Word(high, low)) == low
  {
  }

  lemma WrittenWord(data: Data, i: nat, w: u16)
    requires i + 2 <= |data|
    ensures WordAt(WithWord(data, i, w), i) == w
  {
    hide High, Low;
    WordOf(w, 0, 0);
  }

  lemma WordWeighed(length: nat, i: nat, d: int, e: int)
    requires i + 2 <= length
    ensures i % 2 == 0 ==> Weighed(length, i, d) == 256 * d && Weighed(length, i + 1, e) == e
    ensures i % 2 == 1 && i + 2 < length ==> Weighed(length, i, d) == d && Weighed(length, i + 1, e) == 256 * e
  {
  }

  /** A word at an even offset counts for its value. */
  lemma SetWord(data: Data, i: nat, w: u16)
    requires i + 2 <= |data| && i % 2 == 0
    ensures WordSum(WithWord(data, i, w)) + WordAt(data, i) == WordSum(data) + w
  {
    hide WordSum, High, Low, WithWord, Weighed;
    WithWordSum(data, i, w);
    WordWeighed(|data|, i, High(w) as int - data[i], Low(w) as int - data[i + 1]);
  }

  /** A word at an odd offset counts for its value with the bytes swapped. */
  lemma SetOddWord(data: Data, i: nat, w: u16)
    requires i + 2 < |data| && i % 2 == 1
    ensures WordSum(WithWord(data, i, w)) + Swapped(WordAt(data, i)) == WordSum(data) + Swapped(w)
  {
    hide WordSum, High, Low, WithWord, Weighed;
    WithWordSum(data, i, w);
    WordWeighed(|data|, i, High(w) as int - data[i], Low(w) as int - data[i + 1]);
    WordOf(0, data[i], data[i + 1]);
  }

  /** What a word contributes to the sum. */
  function Contribution(i: nat, w: u16): u16 { if i % 2 == 0 then w else Swapped(w) }

  lemma SetAnyWord(data: Data, i: nat, w: u16)
    requires i + 2 <= |data| && (i % 2 == 1 ==> i + 2 < |data|)
    ensures WordSum(WithWord(data, i, w)) + Contribution(i, WordAt(data, i)) == WordSum(data) + Contribution(i, w)
    ensures Contribution(i, WordAt(data, i)) <= WordSum(data)
  {
    hide WordSum, WithWord, Swapped, WordAt;
    if i % 2 == 0 { SetWord(data, i, w); SetWord(data, i, 0); } else { SetOddWord(data, i, w); SetOddWord(data, i, 0); }
    SwappedZero();
  }

  lemma SwappedZero()
    ensures Swapped(0) == 0
  {
  }

  lemma WordIsPart(data: Data, i: nat)
    requires i + 2 <= |data| && i % 2 == 0
    ensures WordSum(data) >= WordAt(data, i)
  {
    hide WordSum, WithWord;
    SetWord(data, i, 0);
  }

  /** A sum and the complement of its folded value are all ones. */
  lemma ComplementCloses(s: nat)
    ensures s + Complement(Fold(s)) > 0 && Same(s + Complement(Fold(s)), 0)
  {
    FoldIsResidue(s);
    ResidueIsSame(s);
    hide Fold, Residue;
    assert Same(s + ONES - Fold(s), 0);
  }

  /** Writing the checksum computed over a zeroed field makes the data verify. */
  lemma FullChecksumVerifies(data: Data, i: nat)
    requires i + 2 <= |data| && i % 2 == 0
    ensures var blank := WithWord(data, i, 0); Verifies(WithWord(blank, i, InternetChecksum(blank, ONES)))
  {
    hide WordSum, Fold, Same, Verifies, WithWord;
    var blank := WithWord(data, i, 0);
    var c := InternetChecksum(blank, ONES);
    WrittenWord(data, i, 0);
    SetWord(blank, i, c);
    ComplementCloses(WordSum(blank));
    VerifiesMeans(WithWord(blank, i, c));
  }

  /** The update for a header: the old checksum plus the old word less the new one. */
  function IncrementalUpdate(checksum: u16, was: u16, now: u16): u16 {
    Fold(checksum + was + Complement(now))
  }

  lemma WholeTurns(s: int, k: int)
    ensures Same(s + ONES * k, 0) <==> Same(s, 0)
  {
    assert (s + ONES * k) % ONES == s % ONES;
  }

  lemma TurnsBetween(x: int, y: int) returns (k: int)
    requires Same(x, y)
    ensures x == y + ONES * k
  {
    k := (x - y) / ONES;
  }

  lemma UpdateBalances(s: int, checksum: u16, was: u16, now: u16)
    requires was > now
    ensures IncrementalUpdate(checksum, was, now) > 0
    ensures Same(s - was + now - checksum + IncrementalUpdate(checksum, was, now), 0) <==> Same(s, 0)
  {
    hide Fold, Residue, Same;
    var x := checksum + was + Complement(now);
    FoldIsResidue(x);
    ResidueIsSame(x);
    var c := IncrementalUpdate(checksum, was, now);
    var k := TurnsBetween(c, x);
    assert s - was + now - checksum + c == s + ONES * (k + 1);
    WholeTurns(s, k + 1);
  }

  /** An even word and the checksum changed together: the data verifies exactly when it did before. */
  lemma UpdateKeepsVerifying(data: Data, i: nat, k: nat, w: u16)
    requires i + 2 <= k && k + 2 <= |data| && i % 2 == 0 && k % 2 == 0
    requires WordAt(data, i) > w
    ensures var changed := WithWord(WithWord(data, i, w), k, IncrementalUpdate(WordAt(data, k), WordAt(data, i), w));
            Verifies(changed) <==> Verifies(data)
  {
    hide WordSum, Fold, Same, Verifies, WithWord, IncrementalUpdate, WordAt;
    var mid, was, c := WithWord(data, i, w), WordAt(data, i), WordAt(data, k);
    var c' := IncrementalUpdate(c, was, w);
    var changed := WithWord(mid, k, c');
    OtherWord(data, i, k, w);
    SetWord(data, i, w);
    SetWord(mid, k, c');
    UpdateBalances(WordSum(data), c, was, w);
    WordIsPart(data, i);
    WordIsPart(changed, k);
    WrittenWord(mid, k, c');
    VerifiesMeans(data);
    VerifiesMeans(changed);
    assert WordSum(changed) == WordSum(data) as int - was + w - c + c';
  }

  lemma OtherWord(data: Data, i: nat, k: nat, w: u16)
    requires i + 2 <= k && k + 2 <= |data|
    ensures WordAt(WithWord(data, i, w), k) == WordAt(data, k)
  {
    hide High, Low;
  }

  /** The checksum a transport header should carry: over the pseudo-header, whose words sum to `pseudo`, and the segment
      with the checksum field at `k` blank. */
  function TransportChecksum(pseudo: nat, segment: Data, k: nat): u16
    requires k + 2 <= |segment|
  {
    Complement(Fold(pseudo + WordSum(WithWord(segment, k, 0))))
  }

  /** The update for a transport header, which folds twice instead of until nothing is left. */
  function TransportUpdate(checksum: u16, was: u16, now: u16): u16 {
    var x := Complement(checksum) + Complement(was) + now;
    var y := x % 0x1_0000 + x / 0x1_0000;
    Complement((y + y / 0x1_0000) % 0x1_0000)
  }

  /** Two foldings are enough for the sum of three words. */
  lemma TransportUpdateFolds(checksum: u16, was: u16, now: u16)
    ensures TransportUpdate(checksum, was, now) == Complement(Residue(Complement(checksum) + Complement(was) + now))
  {
    var x := Complement(checksum) + Complement(was) + now;
    FoldIsResidue(x);
    var y := x % 0x1_0000 + x / 0x1_0000;
    assert y <= 0x1_0001;
    assert (y + y / 0x1_0000) % 0x1_0000 == Fold(y);
  }

  lemma SameIffResidue(x: nat, y: nat)
    requires x > 0 && y > 0
    ensures Residue(x) == Residue(y) <==> Same(x, y)
  {
    ResidueIsSame(x);
    ResidueIsSame(y);
    if Same(x, y) {
      SameResidue(x, y);
    } else if Residue(x) == Residue(y) {
      SameAdds(Residue(x), x, 0, 0);
      SameIsTransitive(x, Residue(x), y);
    }
  }

  /** Replacing a word that contributes `was` by one that contributes `now`, when the update is told of `oldWord` and
      `newWord`: the updated checksum is the one a full computation gives exactly when the two differences agree. */
  lemma TransportUpdateIsExact(sum: nat, was: nat, now: nat, oldWord: u16, newWord: u16)
    requires sum > was
    ensures TransportUpdate(Complement(Fold(sum)), oldWord, newWord) == Complement(Fold(sum - was + now))
        <==> Same(newWord as int - oldWord, now as int - was)
  {
    FoldIsResidue(sum);
    FoldIsResidue(sum - was + now);
    ResidueIsSame(sum);
    TransportUpdateFolds(Complement(Fold(sum)), oldWord, newWord);
    hide Fold, TransportUpdate, Residue;
    var x, y := Residue(sum) + Complement(oldWord) + newWord, sum - was + now;
    SameIffResidue(x, y);
    SameDifference(Residue(sum), sum, oldWord, newWord, was, now);
  }

  lemma SameDifference(r: int, sum: int, oldWord: int, newWord: int, was: int, now: int)
    requires Same(r, sum)
    ensures Same(r + (ONES - oldWord) + newWord, sum - was + now) <==> Same(newWord - oldWord, now - was)
  {
    var k := (r - sum) / ONES;
    assert r == sum + ONES * k;
    var d := newWord - oldWord - (now - was);
    assert r + (ONES - oldWord) + newWord - (sum - was + now) == d + ONES * (k + 1);
    assert (d + ONES * (k + 1)) % ONES == d % ONES;
  }

  /** Swapping the bytes of two words keeps their difference modulo 0xffff exactly when it is a multiple of 257. */
  lemma SwappedDifference(v: u16, w: u16)
    ensures Same(w as int - v, Swapped(w) as int - Swapped(v)) <==> (v as int - w) % 257 == 0
  {
    assert Swapped(v) == 256 * v - 0xffff * (v / 256) && Swapped(w) == 256 * w - 0xffff * (w / 256);
    var d := v as int - w;
    var k := d / 257;
    assert d == 257 * k + d % 257;
    var t := w / 256 - v / 256 + k;
    assert w as int - v - (Swapped(w) as int - Swapped(v)) == 255 * d + 0xffff * (w / 256 as int - v / 256)
        == 255 * (d % 257) + 0xffff * (k + w / 256 - v / 256);
    RemainderOf(255 * (d % 257), k + w / 256 - v / 256);
  }

  lemma RemainderOf(r: int, k: int)
    requires 0 <= r < 0xffff
    ensures (r + 0xffff * k) % 0xffff == r
  {
  }

  /** A segment with the word at `i` replaced and the checksum at `k` updated. */
  function Updated(segment: Data, k: nat, i: nat, w: u16): (r: Data)
    requires k + 2 <= i && i + 2 <= |segment|
    ensures |r| == |segment|
  {
    WithWord(WithWord(segment, i, w), k, TransportUpdate(WordAt(segment, k), WordAt(segment, i), w))
  }

  /** The sums behind the full checksum, before and after the update. */
  lemma ChecksumOfUpdated(pseudo: nat, segment: Data, k: nat, i: nat, w: u16) returns (sum: nat, after: nat)
    requires k + 2 <= i && i + 2 <= |segment| && k % 2 == 0 && (i % 2 == 1 ==> i + 2 < |segment|)
    ensures TransportChecksum(pseudo, segment, k) == Complement(Fold(sum))
    ensures TransportChecksum(pseudo, Updated(segment, k, i, w), k) == Complement(Fold(after))
    ensures sum + Contribution(i, w) == after + Contribution(i, WordAt(segment, i))
    ensures sum >= pseudo + Contribution(i, WordAt(segment, i))
    ensures WordAt(Updated(segment, k, i, w), k) == TransportUpdate(WordAt(segment, k), WordAt(segment, i), w)
  {
    hide WordSum, WithWord, Fold, TransportUpdate, Contribution, WordAt;
    var blank := WithWord(segment, k, 0);
    var c := TransportUpdate(WordAt(segment, k), WordAt(segment, i), w);
    BlanksAgree(segment, k, i, w, c);
    WrittenWord(WithWord(segment, i, w), k, c);
    SetAnyWord(blank, i, w);
    sum, after := pseudo + WordSum(blank), pseudo + WordSum(WithWord(blank, i, w));
  }

  /** A word is replaced and the transport checksum updated. The result is the checksum that a full computation gives
      exactly when the word lies at an even offset or changes by a multiple of 257. */
  lemma TransportUpdateAgrees(pseudo: nat, segment: Data, k: nat, i: nat, w: u16)
    requires k + 2 <= i && i + 2 <= |segment| && k % 2 == 0 && (i % 2 == 1 ==> i + 2 < |segment|) && pseudo > 0
    requires WordAt(segment, k) == TransportChecksum(pseudo, segment, k)
    ensures (WordAt(Updated(segment, k, i, w), k) == TransportChecksum(pseudo, Updated(segment, k, i, w), k))
       <==> (i % 2 == 0 || (WordAt(segment, i) as int - w) % 257 == 0)
  {
    hide WordSum, WithWord, Fold, TransportUpdate, Swapped, WordAt, Same, Updated;
    var was := WordAt(segment, i);
    var sum, after := ChecksumOfUpdated(pseudo, segment, k, i, w);
    TransportUpdateIsExact(sum, Contribution(i, was), Contribution(i, w), was, w);
    if i % 2 == 0 { SameAsItself(w as int - was); } else { SwappedDifference(was, w); }
  }

  lemma SameAsItself(x: int)
    ensures Same(x, x)
  {
  }

  lemma BlanksAgree(segment: Data, k: nat, i: nat, w: u16, c: u16)
    requires k + 2 <= i && i + 2 <= |segment|
    ensures WithWord(WithWord(WithWord(segment, i, w), k, c), k, 0) == WithWord(WithWord(segment, k, 0), i, w)
    ensures WordAt(WithWord(segment, k, 0), i) == WordAt(segment, i)
  {
    hide High, Low;
  }

  // The loops.

  method FoldChecksum(sum: nat) returns (r: u16)
    ensures r == Complement(Residue(sum))
  {
    FoldIsResidue(sum);
    var x := sum;
    while x / 0x1_0000 != 0
      invariant Fold(x) == Fold(sum)
      decreases x
    {
      x := x % 0x1_0000 + x / 0x1_0000;
    }
    r := Complement(x);
  }

  method ComputeChecksum(data: Data, previous: u16) returns (r: u16)
    ensures r == InternetChecksum(data, previous)
  {
    var sum, i := Complement(previous), 0;
    while i + 2 <= |data|
      invariant i <= |data|
      invariant sum + WordSum(data[i..]) == Complement(previous) + WordSum(data)
    {
      assert data[i..][2..] == data[i + 2..];
      sum := sum + WordAt(data, i);
      i := i + 2;
    }
    if i < |data| {
      sum := sum + data[i];
    }
    FoldIsResidue(sum);
    r := FoldChecksum(sum);
  }
}
