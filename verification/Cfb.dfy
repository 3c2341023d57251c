/** The legacy stream cipher: a block cipher in CFB mode that is fed byte by byte, wherever the stream happens to be
    cut. */
module Cfb {
  import opened Basics

  type Octet = bv8
  type Octets = seq<Octet>

  const BLOCK := 16

  function Mix(a: Octet, b: Octet): Octet { a ^ b }

  type Block = b: Octets | |b| == BLOCK witness seq(BLOCK, _ => 0)

  /** Encrypting one block under a fixed key. */
  type BlockCipher = Block -> Block

  datatype State = State(feedback: Block, stream: Block, position: nat) {
    predicate Valid() { position < BLOCK }
  }

  function StreamAt(f: BlockCipher, s: State): Block {
    if s.position == 0 then f(s.feedback) else s.stream
  }

  /** One byte through the cipher. The ciphertext byte is fed back in either direction. */
  function ApplyByte(f: BlockCipher, s: State, b: Octet, encrypt: bool): (r: (State, Octet))
    requires s.Valid()
    ensures r.0.Valid()
  {
    var stream := StreamAt(f, s);
    var out := Mix(b, stream[s.position]);
    (State(s.feedback[s.position := if encrypt then out else b], stream, (s.position + 1) % BLOCK), out)
  }

  function Apply(f: BlockCipher, s: State, input: Octets, encrypt: bool): (r: (State, Octets))
    requires s.Valid()
    ensures r.0.Valid() && |r.1| == |input|
  {
    if input == [] then (s, [])
    else
      var (t, out) := Apply(f, s, input[..|input| - 1], encrypt);
      var (u, b) := ApplyByte(f, t, input[|input| - 1], encrypt);
      (u, out + [b])
  }

  function Start(iv: Block): (s: State)
    ensures s.Valid()
  {
    State(iv, seq(BLOCK, _ => 0), 0)
  }

  /** Byte-wise exclusive or with the first bytes of `key`. */
  function Xor(a: Octets, key: Octets): (r: Octets)
    requires |a| <= |key|
    ensures |r| == |a|
  {
    seq(|a|, i requires 0 <= i < |a| => Mix(a[i], key[i]))
  }

  /** CFB-128 encryption as section 6.3 of NIST SP 800-38A defines it, block by block; the last block may be short. */
  function CfbEncrypt(f: BlockCipher, iv: Block, plain: Octets): (r: Octets)
    ensures |r| == |plain|
    decreases |plain|
  {
    if |plain| <= BLOCK then Xor(plain, f(iv))
    else
      var c := Xor(plain[..BLOCK], f(iv));
      c + CfbEncrypt(f, c, plain[BLOCK..])
  }

  function CfbDecrypt(f: BlockCipher, iv: Block, cipher: Octets): (r: Octets)
    ensures |r| == |cipher|
    decreases |cipher|
  {
    if |cipher| <= BLOCK then Xor(cipher, f(iv))
    else Xor(cipher[..BLOCK], f(iv)) + CfbDecrypt(f, cipher[..BLOCK], cipher[BLOCK..])
  }

  /** Where the stream is cut makes no difference. */
  lemma {:induction false} ApplyJoins(f: BlockCipher, s: State, a: Octets, b: Octets, encrypt: bool)
    requires s.Valid()
    ensures var (t, x) := Apply(f, s, a, encrypt);
            var (u, y) := Apply(f, t, b, encrypt);
            Apply(f, s, a + b, encrypt) == (u, x + y)
    decreases |b|
  {
    hide ApplyByte;
    var (t, x) := Apply(f, s, a, encrypt);
    if b == [] {
      assert a + b == a && x + [] == x;
    } else {
      var c := b[..|b| - 1];
      ApplyJoins(f, s, a, c, encrypt);
      assert (a + b)[..|a + b| - 1] == a + c;
      var (v, z) := Apply(f, t, c, encrypt);
      assert x + (z + [ApplyByte(f, v, b[|b| - 1], encrypt).1]) == x + z + [ApplyByte(f, v, b[|b| - 1], encrypt).1];
    }
  }

  /** One more byte of a block: its ciphertext takes its place in the feedback. */
  lemma OneMore(f: BlockCipher, t: State, key: Block, iv: Block, done: Octets, b: Octet, encrypt: bool)
    requires t.Valid() && |done| < BLOCK && t.position == |done|
    requires StreamAt(f, t) == key && t.feedback == done + iv[|done|..]
    ensures var (u, x) := ApplyByte(f, t, b, encrypt);
            && x == Mix(b, key[|done|]) && u.stream == key && u.position == (|done| + 1) % BLOCK
            && u.feedback == done + [if encrypt then x else b] + iv[|done| + 1..]
  {
    hide StreamAt;
  }

  /** The state in the middle of a block: the ciphertext so far replaces the start of the feedback. */
  lemma {:induction false} WithinBlock(f: BlockCipher, s: State, input: Octets, encrypt: bool)
    requires s.Valid() && s.position == 0 && |input| <= BLOCK
    ensures var (t, out) := Apply(f, s, input, encrypt);
            && out == Xor(input, f(s.feedback))
            && t.feedback == (if encrypt then out else input) + s.feedback[|input|..]
            && t.position == |input| % BLOCK
            && (input != [] ==> t.stream == f(s.feedback))
    decreases |input|
  {
    hide ApplyByte, StreamAt, Xor;
    if input == [] {
      assert s.feedback[0..] == s.feedback;
      XorOfNothing(f(s.feedback));
    } else {
      var rest, b := input[..|input| - 1], input[|input| - 1];
      WithinBlock(f, s, rest, encrypt);
      var (t, out) := Apply(f, s, rest, encrypt);
      StreamInBlock(f, s, t, rest);
      OneMore(f, t, f(s.feedback), s.feedback, if encrypt then out else rest, b, encrypt);
      assert input == rest + [b];
      XorGrows(rest, b, f(s.feedback));
    }
  }

  lemma StreamInBlock(f: BlockCipher, s: State, t: State, rest: Octets)
    requires |rest| < BLOCK && t.position == |rest| % BLOCK
    requires if rest == [] then t.feedback == s.feedback else t.stream == f(s.feedback)
    ensures StreamAt(f, t) == f(s.feedback) && t.position == |rest|
  {
  }

  lemma XorOfNothing(key: Block)
    ensures Xor([], key) == []
  {
  }

  lemma XorGrows(rest: Octets, b: Octet, key: Block)
    requires |rest| < BLOCK
    ensures Xor(rest + [b], key) == Xor(rest, key) + [Mix(b, key[|rest|])]
  {
  }

  /** Byte by byte from the start of a block is block by block. */
  lemma {:induction false} StreamingIsBlockwise(f: BlockCipher, s: State, input: Octets, encrypt: bool)
    requires s.Valid() && s.position == 0
    ensures Apply(f, s, input, encrypt).1 == if encrypt then CfbEncrypt(f, s.feedback, input)
              else CfbDecrypt(f, s.feedback, input)
    decreases |input|
  {
    hide ApplyByte, Apply, Xor;
    if |input| <= BLOCK {
      WithinBlock(f, s, input, encrypt);
    } else {
      var block, rest := input[..BLOCK], input[BLOCK..];
      assert input == block + rest;
      WithinBlock(f, s, block, encrypt);
      ApplyJoins(f, s, block, rest, encrypt);
      var (t, out) := Apply(f, s, block, encrypt);
      assert t.feedback == if encrypt then out else block;
      StreamingIsBlockwise(f, t, rest, encrypt);
    }
  }

  /** One call for each piece of the stream. */
  function ApplyAll(f: BlockCipher, s: State, pieces: seq<Octets>, encrypt: bool): (r: (State, Octets))
    requires s.Valid()
    ensures r.0.Valid()
    decreases |pieces|
  {
    if pieces == [] then (s, [])
    else
      var (t, out) := Apply(f, s, pieces[0], encrypt);
      var (u, more) := ApplyAll(f, t, pieces[1..], encrypt);
      (u, out + more)
  }

  lemma {:induction false} PiecesJoin(f: BlockCipher, s: State, pieces: seq<Octets>, encrypt: bool)
    requires s.Valid()
    ensures ApplyAll(f, s, pieces, encrypt) == Apply(f, s, Joined(pieces), encrypt)
    decreases |pieces|
  {
    hide Apply, ApplyByte;
    if pieces == [] {
      assert Apply(f, s, [], encrypt) == (s, []) by { NothingApplied(f, s, encrypt); }
    } else {
      PiecesJoin(f, Apply(f, s, pieces[0], encrypt).0, pieces[1..], encrypt);
      ApplyJoins(f, s, pieces[0], Joined(pieces[1..]), encrypt);
    }
  }

  lemma NothingApplied(f: BlockCipher, s: State, encrypt: bool)
    requires s.Valid()
    ensures Apply(f, s, [], encrypt) == (s, [])
  {
  }

  /** Encryption and decryption go through the same states. */
  lemma {:induction false} DecryptionFollows(f: BlockCipher, s: State, plain: Octets)
    requires s.Valid()
    ensures Apply(f, s, Apply(f, s, plain, true).1, false) == (Apply(f, s, plain, true).0, plain)
    decreases |plain|
  {
    if plain == [] {
    } else {
      var p, b := plain[..|plain| - 1], plain[|plain| - 1];
      DecryptionFollows(f, s, p);
      var (t, c) := Apply(f, s, p, true);
      var (u, x) := ApplyByte(f, t, b, true);
      assert Apply(f, s, plain, true) == (u, c + [x]);
      assert (c + [x])[..|c + [x]| - 1] == c;
      BackAgain(b, StreamAt(f, t)[t.position]);
      assert ApplyByte(f, t, x, false) == (u, b);
      assert p + [b] == plain;
    }
  }

  lemma BackAgain(b: Octet, k: Octet)
    ensures Mix(Mix(b, k), k) == b
  {
  }

  /** The streaming cipher is CFB-128, and decrypting returns the plaintext, however either side cuts the stream. */
  lemma StreamsAgree(f: BlockCipher, iv: Block, plain: seq<Octets>, cipher: seq<Octets>)
    requires Joined(cipher) == ApplyAll(f, Start(iv), plain, true).1
    ensures Joined(cipher) == CfbEncrypt(f, iv, Joined(plain))
    ensures ApplyAll(f, Start(iv), cipher, false).1 == Joined(plain) == CfbDecrypt(f, iv, Joined(cipher))
  {
    hide Apply, ApplyByte, ApplyAll, Joined, CfbEncrypt, CfbDecrypt;
    PiecesJoin(f, Start(iv), plain, true);
    PiecesJoin(f, Start(iv), cipher, false);
    StreamingIsBlockwise(f, Start(iv), Joined(plain), true);
    StreamingIsBlockwise(f, Start(iv), Joined(cipher), false);
    DecryptionFollows(f, Start(iv), Joined(plain));
  }

  class LegacyMetaCipher {
    const block: BlockCipher
    const feedback: array<Octet>
    const stream: array<Octet>
    var position: nat

    ghost predicate Valid()
      reads this, feedback, stream
    {
      feedback.Length == BLOCK && stream.Length == BLOCK && position < BLOCK && feedback != stream
    }

    ghost function View(): State
      requires Valid()
      reads this, feedback, stream
    {
      State(feedback[..], stream[..], position)
    }

    constructor (cipher: BlockCipher, iv: Block)
      ensures Valid() && View() == Start(iv) && block == cipher && fresh(feedback) && fresh(stream)
    {
      block, position := cipher, 0;
      feedback := new Octet[BLOCK](i requires 0 <= i < |iv| => iv[i]);
      stream := new Octet[BLOCK](_ => 0);
      new;
      assert feedback[..] == iv && stream[..] == Start(iv).stream;
    }

    /** At the start of a block the next key stream is made from the feedback. */
    method RefreshStream()
      requires Valid()
      modifies stream
      ensures Valid() && stream[..] == StreamAt(block, old(View()))
    {
      if position == 0 {
        var next: Octets := block(feedback[..]);
        var k := 0;
        while k < BLOCK
          invariant 0 <= k <= BLOCK && stream[..k] == next[..k]
        {
          stream[k] := next[k];
          k := k + 1;
        }
        assert stream[..] == next;
      }
    }

    method ApplyOne(b: Octet, encrypt: bool) returns (out: Octet)
      requires Valid()
      modifies this`position, feedback, stream
      ensures Valid()
      ensures View() == ApplyByte(block, old(View()), b, encrypt).0
      ensures out == ApplyByte(block, old(View()), b, encrypt).1
    {
      hide StreamAt, Mix;
      ghost var s := View();
      RefreshStream();
      out := Mix(b, stream[position]);
      feedback[position] := if encrypt then out else b;
      assert feedback[..] == s.feedback[s.position := if encrypt then out else b];
      position := (position + 1) % feedback.Length;
    }

    method ApplyInPlace(input: Octets, encrypt: bool) returns (output: Octets)
      requires Valid()
      modifies this`position, feedback, stream
      ensures Valid() && (View(), output) == Apply(block, old(View()), input, encrypt)
    {
      hide ApplyByte;
      output := [];
      for i := 0 to |input|
        invariant Valid() && (View(), output) == Apply(block, old(View()), input[..i], encrypt)
      {
        assert input[..i + 1][..i] == input[..i];
        var out := ApplyOne(input[i], encrypt);
        output := output + [out];
      }
      assert input[..|input|] == input;
    }
  }
}
