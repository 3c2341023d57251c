/** IPv4 fragmentation, and the reassembly of section 3.2 of RFC 791 that undoes it. */
module Fragment {
  import opened Basics
  import opened Checksum
  import Headers

  const IP_HEADER_LEN := 20
  const OFFSETS := 0x2000
  const MIN_MTU := 590

  datatype FragmentError =
    | TooShort(expectedAtLeast: nat, actual: nat)
    | NotIpv4(etherType: u16)
    | UnsupportedHeaderLength(words: nat)
    | LengthMismatch(headerTotalLength: nat, actualLength: nat)
    | MtuTooSmall(mtu: nat, requiredAtLeast: nat)

  /** The length of the Ethernet header of a packet that may be fragmented. */
  function Checked(p: Data): (r: Result<nat, FragmentError>)
    ensures r.Ok? ==> (r.value == 14 || r.value == 18) && r.value + IP_HEADER_LEN <= |p| <= r.value + 0xffff
  {
    var t := Headers.PayloadType(p);
    if t.Err? then Err(TooShort(t.error.expectedAtLeast, t.error.actual)) else
    var e := t.value.1;
    if t.value.0 != Headers.ETH_P_IP then Err(NotIpv4(t.value.0))
    else if |p| < e + IP_HEADER_LEN then Err(TooShort(e + IP_HEADER_LEN, |p|))
    else if p[e] % 16 != 5 then Err(UnsupportedHeaderLength(p[e] % 16))
    else if WordAt(p, e + 2) != |p| - e then Err(LengthMismatch(WordAt(p, e + 2), |p| - e))
    else Ok(e)
  }

  /** Room for payload in one fragment, in whole units of eight bytes. */
  function MaximumPayload(mtu: nat, e: nat): (r: Result<nat, FragmentError>)
    ensures r.Ok? ==> r.value > 0 && r.value % 8 == 0
  {
    var effective := if mtu >= MIN_MTU then mtu else MIN_MTU;
    if effective <= e + IP_HEADER_LEN then Err(MtuTooSmall(mtu, e + IP_HEADER_LEN + 8)) else
    var room := (effective - e - IP_HEADER_LEN) / 8 * 8;
    if room == 0 then Err(MtuTooSmall(mtu, e + IP_HEADER_LEN + 8)) else Ok(room)
  }

  /** The flags, as multiples of the offset range, joined with an offset by a bitwise or: an offset of fourteen bits
      reaches into the More Fragments flag. */
  function FlagsWithOffset(flags: nat, offset: nat): u16
    requires flags < 8 && offset < 2 * OFFSETS
  {
    var more := if offset >= OFFSETS && flags % 2 == 0 then flags + 1 else flags;
    more * OFFSETS + offset % OFFSETS
  }

  /** The packet's own flags, with More Fragments added unless this is its last fragment. */
  function FragmentFlags(flags: nat, last: bool): (r: nat)
    requires flags < 8
    ensures r < 8
  {
    if !last && flags % 2 == 0 then flags + 1 else flags
  }

  /** One fragment: the packet's headers with length, flags, offset and checksum of its own, and `length` bytes of
      payload from `start`. */
  function OneFragment(p: Data, e: nat, start: nat, length: nat, offset: nat): (f: Data)
    requires e + IP_HEADER_LEN + start + length <= |p| <= e + 0xffff && offset < 2 * OFFSETS
    ensures |f| == e + IP_HEADER_LEN + length
  {
    var first := e + IP_HEADER_LEN + start;
    var copied := p[..e + IP_HEADER_LEN] + p[first..first + length];
    var sized := WithWord(copied, e + 2, IP_HEADER_LEN + length);
    var flags := FragmentFlags(WordAt(p, e + 6) / OFFSETS, first + length == |p|);
    Sealed(WithWord(sized, e + 6, FlagsWithOffset(flags, offset)), e)
  }

  /** The header checksum computed over a blank field and written to it. */
  function Sealed(f: Data, e: nat): (r: Data)
    requires e + IP_HEADER_LEN <= |f|
    ensures |r| == |f|
  {
    var blank := WithWord(f, e + 10, 0);
    WithWord(blank, e + 10, InternetChecksum(blank[e..e + IP_HEADER_LEN], ONES))
  }

  /** Every fragment has room for the headers. */
  predicate AllLong(fragments: seq<Data>, e: nat) { forall f :: f in fragments ==> e + IP_HEADER_LEN <= |f| }

  /** The fragments from payload unit `block` on, `units` units of eight bytes in each; `base` is the packet's own
      offset. */
  function FragmentsFrom(p: Data, e: nat, units: nat, base: nat, block: nat): (r: seq<Data>)
    requires e + IP_HEADER_LEN <= |p| <= e + 0xffff && units > 0 && base < OFFSETS
    ensures AllLong(r, e)
    decreases |p| - 8 * block
  {
    var remaining := |p| - e - IP_HEADER_LEN - 8 * block;
    if remaining <= 0 then [] else
    [OneFragment(p, e, 8 * block, Min(remaining, 8 * units), base + block)]
      + FragmentsFrom(p, e, units, base, block + units)
  }

  function Fragmented(p: Data, mtu: nat): Result<seq<Data>, FragmentError> {
    var e := Checked(p);
    if e.Err? then Err(e.error) else
    var room := MaximumPayload(mtu, e.value);
    if room.Err? then Err(room.error)
    else Ok(FragmentsFrom(p, e.value, room.value / 8, WordAt(p, e.value + 6) % OFFSETS, 0))
  }

  method FragmentIpv4Packet(packet: Data, mtu: nat) returns (r: Result<seq<Data>, FragmentError>)
    ensures r == Fragmented(packet, mtu)
  {
    hide Checked, MaximumPayload, OneFragment, FragmentsFrom, WordAt;
    var checked := Checked(packet);
    if checked.Err? {
      return Err(checked.error);
    }
    var e := checked.value;
    var room := MaximumPayload(mtu, e);
    if room.Err? {
      return Err(room.error);
    }
    ghost var units := room.value / 8;
    assert room.value == 8 * units && units > 0;
    var start: nat, remaining := 0, |packet| - e - IP_HEADER_LEN;
    var offset: nat := WordAt(packet, e + 6) % OFFSETS;
    var fragments: seq<Data> := [];
    ghost var base, block: nat := offset, 0;
    ghost var expected := FragmentsFrom(packet, e, units, base, 0);
    while remaining > 0
      invariant 0 <= remaining == |packet| - e - IP_HEADER_LEN - start
      invariant remaining > 0 ==> start == 8 * block && offset == base + block
      invariant remaining == 0 ==> 8 * block >= start
      invariant expected == fragments + FragmentsFrom(packet, e, units, base, block)
      decreases remaining
    {
      var length := if remaining <= room.value then remaining else room.value;
      remaining := remaining - length;
      FirstFragment(packet, e, units, base, block);
      var fragment := BuildFragment(packet, e, start, length, offset, remaining == 0);
      fragments := fragments + [fragment];
      start := start + length;
      offset := offset + length / 8;
      block := block + units;
    }
    NoFragment(packet, e, units, base, block);
    assert expected == fragments + [] == fragments;
    r := Ok(fragments);
  }

  lemma FirstFragment(p: Data, e: nat, units: nat, base: nat, block: nat)
    requires FragmentsFrom.requires(p, e, units, base, block) && |p| > e + IP_HEADER_LEN + 8 * block
    ensures base + block < 2 * OFFSETS
    ensures var length := Min(|p| - e - IP_HEADER_LEN - 8 * block, 8 * units);
            FragmentsFrom(p, e, units, base, block)
              == [OneFragment(p, e, 8 * block, length, base + block)] + FragmentsFrom(p, e, units, base, block + units)
  {
    hide OneFragment;
  }

  lemma NoFragment(p: Data, e: nat, units: nat, base: nat, block: nat)
    requires FragmentsFrom.requires(p, e, units, base, block) && |p| <= e + IP_HEADER_LEN + 8 * block
    ensures FragmentsFrom(p, e, units, base, block) == []
  {
    hide OneFragment;
  }

  method BuildFragment(packet: Data, e: nat, start: nat, length: nat, offset: nat, last: bool) returns (fragment: Data)
    requires e + IP_HEADER_LEN + start + length <= |packet| <= e + 0xffff && offset < 2 * OFFSETS
    requires last <==> e + IP_HEADER_LEN + start + length == |packet|
    ensures fragment == OneFragment(packet, e, start, length, offset)
  {
    hide WithWord, InternetChecksum, FlagsWithOffset, WordAt;
    var first := e + IP_HEADER_LEN + start;
    fragment := packet[..e + IP_HEADER_LEN] + packet[first..first + length];
    fragment := WithWord(fragment, e + 2, IP_HEADER_LEN + length);
    var flags := FragmentFlags(WordAt(packet, e + 6) / OFFSETS, last);
    fragment := WithWord(fragment, e + 6, FlagsWithOffset(flags, offset));
    fragment := WithWord(fragment, e + 10, 0);
    var checksum := ComputeChecksum(fragment[e..e + IP_HEADER_LEN], ONES);
    fragment := WithWord(fragment, e + 10, checksum);
  }

  /** The smallest MTU that counts leaves room behind either Ethernet header. */
  lemma MtuIsNeverTooSmall(p: Data, mtu: nat)
    ensures Checked(p).Ok? ==> Fragmented(p, mtu).Ok?
  {
  }

  // What a fragment is.

  /** The header fields a fragment shares with its packet. */
  ghost predicate SameHeader(f: Data, p: Data, e: nat)
    requires e + IP_HEADER_LEN <= |f| && e + IP_HEADER_LEN <= |p|
  {
    forall i :: 0 <= i < e + IP_HEADER_LEN && !(e + 2 <= i < e + 4) && !(e + 6 <= i < e + 8) && !(e + 10 <= i < e + 12)
      ==> f[i] == p[i]
  }

  lemma SealedIs(f: Data, e: nat)
    requires e + IP_HEADER_LEN <= |f|
    ensures Verifies(Sealed(f, e)[e..e + IP_HEADER_LEN])
    ensures forall i :: 0 <= i < |f| && i != e + 10 && i != e + 11 ==> Sealed(f, e)[i] == f[i]
  {
    hide High, Low, WordSum, Verifies, InternetChecksum;
    var end := e + IP_HEADER_LEN;
    var blank := WithWord(f, e + 10, 0);
    var c := InternetChecksum(blank[e..end], ONES);
    Headers.WithWordInside(f, e, end, e + 10, 0);
    Headers.WithWordInside(blank, e, end, e + 10, c);
    FullChecksumVerifies(f[e..end], 10);
  }

  /** Reading back a word that was written, when another was written elsewhere. */
  lemma TwoWords(f: Data, i: nat, j: nat, v: u16, w: u16)
    requires i + 2 <= j && j + 2 <= |f|
    ensures var g := WithWord(WithWord(f, i, v), j, w);
            && WordAt(g, i) == v && WordAt(g, j) == w
            && forall k :: 0 <= k < |f| && !(i <= k < i + 2) && !(j <= k < j + 2) ==> g[k] == f[k]
  {
    hide High, Low;
    WordOf(v, 0, 0);
    WordOf(w, 0, 0);
  }

  lemma OneFragmentIs(p: Data, e: nat, start: nat, length: nat, offset: nat)
    requires e + IP_HEADER_LEN + start + length <= |p| <= e + 0xffff && offset < 2 * OFFSETS
    ensures var (f, first) := (OneFragment(p, e, start, length, offset), e + IP_HEADER_LEN + start);
            && Verifies(f[e..e + IP_HEADER_LEN]) && SameHeader(f, p, e)
            && WordAt(f, e + 2) == IP_HEADER_LEN + length
            && WordAt(f, e + 6) == FlagsWithOffset(FragmentFlags(WordAt(p, e + 6) / OFFSETS, first + length == |p|),
              offset)
            && f[e + IP_HEADER_LEN..] == p[first..first + length]
  {
    hide Verifies, Sealed, WithWord, FlagsWithOffset, FragmentFlags;
    var f, first := OneFragment(p, e, start, length, offset), e + IP_HEADER_LEN + start;
    var copied := p[..e + IP_HEADER_LEN] + p[first..first + length];
    var v, w := IP_HEADER_LEN + length,
      FlagsWithOffset(FragmentFlags(WordAt(p, e + 6) / OFFSETS, first + length == |p|), offset);
    TwoWords(copied, e + 2, e + 6, v, w);
    SealedIs(WithWord(WithWord(copied, e + 2, v), e + 6, w), e);
    assert f[e + IP_HEADER_LEN..] == copied[e + IP_HEADER_LEN..];
  }

  /** A stretch of a datagram's payload: where it goes, in units of eight bytes, and whether more follows. */
  datatype Piece = Piece(offset: nat, more: bool, payload: Data)

  function PieceOf(p: Data, e: nat): Piece
    requires e + IP_HEADER_LEN <= |p|
  {
    Piece(WordAt(p, e + 6) % OFFSETS, WordAt(p, e + 6) / OFFSETS % 2 == 1, p[e + IP_HEADER_LEN..])
  }

  /** Section 3.2 of RFC 791: the pieces, in order, put together the whole. Each starts where the one before ended, all
      but the last are full units of eight bytes and say that more follows, and the last says what the whole said. */
  ghost predicate Assembles(pieces: seq<Piece>, whole: Piece) {
    pieces != [] && pieces[0].offset == whole.offset && pieces[0].payload != [] &&
    if |pieces| == 1 then pieces[0] == whole
    else
      var n := |pieces[0].payload|;
      && pieces[0].more && n % 8 == 0 && n <= |whole.payload| && pieces[0].payload == whole.payload[..n]
      && Assembles(pieces[1..], Piece(whole.offset + n / 8, whole.more, whole.payload[n..]))
  }

  /** The flags and the offset as a receiver reads them, when the offset fits its thirteen bits. */
  lemma FlagsReadBack(flags: nat, offset: nat, last: bool)
    requires flags < 8 && offset < 2 * OFFSETS
    ensures var w := FlagsWithOffset(FragmentFlags(flags, last), offset);
            && w % OFFSETS == offset % OFFSETS
            && (offset < OFFSETS ==>
                  (w / OFFSETS % 2 == 1 <==> !last || flags % 2 == 1) && w / OFFSETS / 2 == flags / 2)
  {
  }

  lemma PieceOfOne(p: Data, e: nat, start: nat, length: nat, offset: nat)
    requires e + IP_HEADER_LEN + start + length <= |p| <= e + 0xffff && offset < 2 * OFFSETS
    ensures var (q, first) := (PieceOf(OneFragment(p, e, start, length, offset), e), e + IP_HEADER_LEN + start);
            && q.offset == offset % OFFSETS && q.payload == p[first..first + length]
            && (offset < OFFSETS ==> (q.more <==> first + length != |p| || PieceOf(p, e).more))
  {
    OneFragmentIs(p, e, start, length, offset);
    FlagsReadBack(WordAt(p, e + 6) / OFFSETS, offset, e + IP_HEADER_LEN + start + length == |p|);
    hide FlagsWithOffset, FragmentFlags, OneFragment, WordAt;
  }

  function PiecesOf(fragments: seq<Data>, e: nat): seq<Piece>
    requires AllLong(fragments, e)
  {
    if fragments == [] then [] else [PieceOf(fragments[0], e)] + PiecesOf(fragments[1..], e)
  }

  lemma FirstPiece(f: Data, rest: seq<Data>, e: nat)
    requires e + IP_HEADER_LEN <= |f| && AllLong(rest, e)
    ensures AllLong([f] + rest, e) && PiecesOf([f] + rest, e) == [PieceOf(f, e)] + PiecesOf(rest, e)
  {
    hide PieceOf;
    assert ([f] + rest)[1..] == rest;
  }

  lemma NoPieces(e: nat)
    ensures PiecesOf([], e) == []
  {
  }

  lemma SomePieces(fragments: seq<Data>, e: nat)
    requires AllLong(fragments, e) && fragments != []
    ensures PiecesOf(fragments, e) != []
  {
  }

  lemma AssembleMore(first: Piece, rest: seq<Piece>, whole: Piece)
    requires rest != [] && 0 < |first.payload| <= |whole.payload| && |first.payload| % 8 == 0
    requires first.payload == whole.payload[..|first.payload|] && (first.offset == whole.offset ==> first.more)
    ensures Assembles([first] + rest, whole) == (first.offset == whole.offset
              && Assembles(rest, Piece(whole.offset + |first.payload| / 8, whole.more,
                whole.payload[|first.payload|..])))
  {
    assert ([first] + rest)[1..] == rest;
  }

  lemma OneAssembles(piece: Piece, whole: Piece)
    requires piece.payload != []
    ensures Assembles([piece], whole) <==> piece == whole
  {
  }

  lemma NothingAssembles(whole: Piece)
    ensures !Assembles([], whole)
  {
  }

  /** What is left of the packet's payload from `block` on. */
  function RestOf(p: Data, e: nat, base: nat, block: nat): Piece
    requires e + IP_HEADER_LEN + 8 * block <= |p|
  {
    Piece(base + block, PieceOf(p, e).more, p[e + IP_HEADER_LEN + 8 * block..])
  }

  /** The first unit of the last fragment of a payload of `length` bytes. */
  function LastBlock(length: nat, units: nat, block: nat): (last: nat)
    requires units > 0
    ensures last >= block
    decreases length - 8 * block
  {
    if length <= 8 * (block + units) then block else LastBlock(length, units, block + units)
  }

  lemma {:induction false} FragmentsAssemble(p: Data, e: nat, units: nat, base: nat, block: nat)
    requires FragmentsFrom.requires(p, e, units, base, block) && |p| > e + IP_HEADER_LEN + 8 * block
    ensures Assembles(PiecesOf(FragmentsFrom(p, e, units, base, block), e), RestOf(p, e, base, block))
       <==> base + LastBlock(|p| - e - IP_HEADER_LEN, units, block) < OFFSETS
    decreases |p| - 8 * block
  {
    hide OneFragment, PieceOf, Assembles, PiecesOf, FragmentsFrom;
    var remaining := |p| - e - IP_HEADER_LEN - 8 * block;
    FirstFragment(p, e, units, base, block);
    if remaining <= 8 * units {
      LastAssembles(p, e, units, base, block);
    } else {
      FragmentsAssemble(p, e, units, base, block + units);
      MoreAssembles(p, e, units, base, block);
    }
  }

  /** The first fragment holds the next bytes of the payload. */
  lemma FirstPayload(p: Data, e: nat, base: nat, block: nat, n: nat) returns (first: Piece)
    requires e + IP_HEADER_LEN + 8 * block + n <= |p| <= e + 0xffff && base + block < 2 * OFFSETS
    ensures first == PieceOf(OneFragment(p, e, 8 * block, n, base + block), e)
    ensures |first.payload| == n && first.payload == RestOf(p, e, base, block).payload[..n]
    ensures first.offset == (base + block) % OFFSETS
    ensures base + block < OFFSETS ==> (first.more <==> |RestOf(p, e, base, block).payload| != n || PieceOf(p, e).more)
  {
    hide OneFragment, PieceOf, FragmentsFrom;
    PieceOfOne(p, e, 8 * block, n, base + block);
    first := PieceOf(OneFragment(p, e, 8 * block, n, base + block), e);
  }

  lemma LastAssembles(p: Data, e: nat, units: nat, base: nat, block: nat)
    requires FragmentsFrom.requires(p, e, units, base, block) && base + block < 2 * OFFSETS
    requires e + IP_HEADER_LEN + 8 * block < |p| <= e + IP_HEADER_LEN + 8 * (block + units)
    ensures Assembles(PiecesOf(FragmentsFrom(p, e, units, base, block), e), RestOf(p, e, base, block))
            <==> base + block < OFFSETS
  {
    hide OneFragment, PieceOf, Assembles, FragmentsFrom, PiecesOf, LastBlock, AllLong, WordAt;
    var first := FirstPayload(p, e, base, block, |p| - e - IP_HEADER_LEN - 8 * block);
    LastPieces(p, e, units, base, block);
    OneAssembles(first, RestOf(p, e, base, block));
  }

  lemma LastPieces(p: Data, e: nat, units: nat, base: nat, block: nat)
    requires FragmentsFrom.requires(p, e, units, base, block) && base + block < 2 * OFFSETS
    requires e + IP_HEADER_LEN + 8 * block < |p| <= e + IP_HEADER_LEN + 8 * (block + units)
    ensures PiecesOf(FragmentsFrom(p, e, units, base, block), e)
         == [PieceOf(OneFragment(p, e, 8 * block, |p| - e - IP_HEADER_LEN - 8 * block, base + block), e)]
  {
    hide OneFragment, PieceOf, FragmentsFrom, PiecesOf, LastBlock;
    FirstFragment(p, e, units, base, block);
    NoFragment(p, e, units, base, block + units);
    var f := OneFragment(p, e, 8 * block, |p| - e - IP_HEADER_LEN - 8 * block, base + block);
    FirstPiece(f, [], e);
    NoPieces(e);
    assert [PieceOf(f, e)] + [] == [PieceOf(f, e)];
  }

  lemma MorePieces(p: Data, e: nat, units: nat, base: nat, block: nat)
    requires FragmentsFrom.requires(p, e, units, base, block) && |p| > e + IP_HEADER_LEN + 8 * (block + units)
    requires base + block < 2 * OFFSETS
    ensures PiecesOf(FragmentsFrom(p, e, units, base, block + units), e) != []
    ensures PiecesOf(FragmentsFrom(p, e, units, base, block), e)
         == [PieceOf(OneFragment(p, e, 8 * block, 8 * units, base + block), e)]
           + PiecesOf(FragmentsFrom(p, e, units, base, block + units), e)
  {
    hide OneFragment, PieceOf, FragmentsFrom, PiecesOf, LastBlock;
    FirstFragment(p, e, units, base, block);
    FirstFragment(p, e, units, base, block + units);
    var rest := FragmentsFrom(p, e, units, base, block + units);
    FirstPiece(OneFragment(p, e, 8 * block, 8 * units, base + block), rest, e);
    SomePieces(rest, e);
  }

  lemma RestSplits(p: Data, e: nat, base: nat, block: nat, units: nat)
    requires e + IP_HEADER_LEN + 8 * (block + units) <= |p|
    ensures RestOf(p, e, base, block).payload[8 * units..] == RestOf(p, e, base, block + units).payload
    ensures RestOf(p, e, base, block).more == RestOf(p, e, base, block + units).more
  {
    hide PieceOf;
  }

  lemma MoreAssembles(p: Data, e: nat, units: nat, base: nat, block: nat)
    requires FragmentsFrom.requires(p, e, units, base, block) && |p| > e + IP_HEADER_LEN + 8 * (block + units)
    requires base + block < 2 * OFFSETS
    ensures Assembles(PiecesOf(FragmentsFrom(p, e, units, base, block), e), RestOf(p, e, base, block))
         == (base + block < OFFSETS
             && Assembles(PiecesOf(FragmentsFrom(p, e, units, base, block + units), e),
               RestOf(p, e, base, block + units)))
  {
    hide OneFragment, PieceOf, Assembles, FragmentsFrom, PiecesOf, LastBlock, WordAt;
    MorePieces(p, e, units, base, block);
    RestSplits(p, e, base, block, units);
    var first := FirstPayload(p, e, base, block, 8 * units);
    AssembleMore(first, PiecesOf(FragmentsFrom(p, e, units, base, block + units), e), RestOf(p, e, base, block));
  }

  lemma AnotherQuotient(x: nat, m: nat)
    requires 0 < m <= x
    ensures x / m == (x - m) / m + 1
  {
    var q, r := (x - m) / m, (x - m) % m;
    assert x == q * m + r + m == (q + 1) * m + r;
    QuotientIs(x, m, q + 1, r);
  }

  lemma QuotientIs(x: nat, m: nat, q: nat, r: nat)
    requires x == q * m + r && r < m
    ensures x / m == q
  {
    var d := x / m - q;
    assert x == m * (x / m) + x % m;
    assert m * d == r - x % m;
    assert d >= 1 ==> m * d >= m;
    assert d <= -1 ==> m * d + m <= 0;
  }

  lemma {:induction false} LastBlockIs(length: nat, units: nat, block: nat)
    requires units > 0 && length > 8 * block
    ensures LastBlock(length, units, block) == block + (length - 8 * block - 1) / (8 * units) * units
    decreases length - 8 * block
  {
    var x, m := length - 8 * block - 1, 8 * units;
    if length <= 8 * (block + units) {
      QuotientIs(x, m, 0, x);
    } else {
      LastBlockIs(length, units, block + units);
      AnotherQuotient(x, m);
      var q := (x - m) / m;
      assert (q + 1) * units == q * units + units;
    }
  }

  /** Reassembling the fragments gives the packet back exactly when it has a payload and the offset of its last fragment
      fits thirteen bits. */
  lemma FragmentingIsUndone(p: Data, mtu: nat)
    requires Checked(p).Ok?
    ensures Fragmented(p, mtu).Ok? && AllLong(Fragmented(p, mtu).value, Checked(p).value)
    ensures var (e, whole) := (Checked(p).value, PieceOf(p, Checked(p).value));
            var room := MaximumPayload(mtu, e).value;
            Assembles(PiecesOf(Fragmented(p, mtu).value, e), whole)
              == (whole.payload != [] && whole.offset + (|whole.payload| - 1) / room * (room / 8) < OFFSETS)
  {
    hide Checked, OneFragment, Assembles, PiecesOf, LastBlock;
    MtuIsNeverTooSmall(p, mtu);
    var e := Checked(p).value;
    var room, base := MaximumPayload(mtu, e).value, WordAt(p, e + 6) % OFFSETS;
    var units := room / 8;
    hide MaximumPayload, WordAt;
    assert RestOf(p, e, base, 0) == PieceOf(p, e);
    if |p| == e + IP_HEADER_LEN {
      NoFragment(p, e, units, base, 0);
      NoPieces(e);
      NothingAssembles(PieceOf(p, e));
    } else {
      FragmentsAssemble(p, e, units, base, 0);
      LastBlockIs(|p| - e - IP_HEADER_LEN, units, 0);
      assert room == 8 * units;
    }
  }

  /** A UDP packet from 10.0.0.1 to 10.0.0.2 with these flags and offset and a payload of `length` zero bytes. */
  function SamplePacket(flagWord: u16, length: nat): Data
    requires length <= 1000
  {
    [0, 0, 0, 0, 0, 0, 0, 0, 0, 0, 0, 0, 8, 0]
      + [69, 0, High(IP_HEADER_LEN + length), Low(IP_HEADER_LEN + length), 0, 0, High(flagWord), Low(flagWord)]
      + [64, 17, 0, 0, 10, 0, 0, 1, 10, 0, 0, 2] + seq(length, _ => 0)
  }

  lemma SampleIs(flagWord: u16, length: nat)
    requires length <= 1000
    ensures |SamplePacket(flagWord, length)| == 34 + length && Checked(SamplePacket(flagWord, length)) == Ok(14)
    ensures WordAt(SamplePacket(flagWord, length), 20) == flagWord
  {
    hide High, Low;
    var p := SamplePacket(flagWord, length);
    assert p[12] == 8 && p[13] == 0 && p[14] == 69;
    assert p[16] == High(IP_HEADER_LEN + length) && p[17] == Low(IP_HEADER_LEN + length);
    assert p[20] == High(flagWord) && p[21] == Low(flagWord);
    WordOf(IP_HEADER_LEN + length, 0, 0);
    WordOf(flagWord, 0, 0);
    hide SamplePacket;
    assert Headers.PayloadType(p) == Ok((Headers.ETH_P_IP, 14));
    hide Headers.PayloadType;
  }

  /** A packet that is a header alone has no fragments, so nothing puts it together again. */
  lemma HeaderAloneIsLost()
    ensures Checked(SamplePacket(0, 0)) == Ok(14) && Fragmented(SamplePacket(0, 0), MIN_MTU) == Ok([])
    ensures |SamplePacket(0, 0)| == 34 && !Assembles(PiecesOf([], 14), PieceOf(SamplePacket(0, 0), 14))
  {
    SampleIs(0, 0);
    hide SamplePacket, Checked, WordAt;
    NoPieces(14);
    NothingAssembles(PieceOf(SamplePacket(0, 0), 14));
    NoFragment(SamplePacket(0, 0), 14, 69, WordAt(SamplePacket(0, 0), 20) % OFFSETS, 0);
  }

  /** A packet that is itself a fragment with the largest offset: the second of its two fragments would start beyond
      thirteen bits, and they do not reassemble to it. */
  lemma FarOffsetIsLost()
    ensures |SamplePacket(0x1fff, 600)| == 634 && Checked(SamplePacket(0x1fff, 600)) == Ok(14)
    ensures var (p, r) := (SamplePacket(0x1fff, 600), Fragmented(SamplePacket(0x1fff, 600), MIN_MTU));
            && r.Ok? && AllLong(r.value, 14) && !Assembles(PiecesOf(r.value, 14), PieceOf(p, 14))
  {
    SampleIs(0x1fff, 600);
    hide SamplePacket, Checked, Assembles, PiecesOf, Fragmented;
    FragmentingIsUndone(SamplePacket(0x1fff, 600), MIN_MTU);
  }

  /** Every fragment: no larger than the MTU, or than 590 bytes if that is more; its header verifies and, but for
      length, flags, offset and checksum, is the packet's; and it can be fragmented again. */
  lemma EachFragment(p: Data, mtu: nat, f: Data)
    requires Fragmented(p, mtu).Ok? && f in Fragmented(p, mtu).value
    ensures var e := Checked(p).value;
            && |f| <= (if mtu >= MIN_MTU then mtu else MIN_MTU)
            && e + IP_HEADER_LEN <= |f| && Verifies(f[e..e + IP_HEADER_LEN]) && SameHeader(f, p, e)
            && Checked(f) == Ok(e)
  {
    var e := Checked(p).value;
    var room, base := MaximumPayload(mtu, e).value, WordAt(p, e + 6) % OFFSETS;
    RoomIsWithinMtu(mtu, e);
    hide MaximumPayload, Verifies, OneFragment, FragmentsFrom, WordAt;
    var start, length, offset := FragmentIsOne(p, e, room / 8, base, 0, f);
    OneFragmentIs(p, e, start, length, offset);
    hide Checked;
    CheckedAgain(p, e, f);
  }

  lemma RoomIsWithinMtu(mtu: nat, e: nat)
    requires MaximumPayload(mtu, e).Ok?
    ensures e + IP_HEADER_LEN + MaximumPayload(mtu, e).value / 8 * 8 <= if mtu >= MIN_MTU then mtu else MIN_MTU
  {
  }

  lemma {:induction false} FragmentIsOne(p: Data, e: nat, units: nat, base: nat, block: nat, f: Data)
    returns (start: nat, length: nat, offset: nat)
    requires FragmentsFrom.requires(p, e, units, base, block) && f in FragmentsFrom(p, e, units, base, block)
    ensures e + IP_HEADER_LEN + start + length <= |p| && length <= 8 * units && offset < 2 * OFFSETS
    ensures f == OneFragment(p, e, start, length, offset)
    decreases |p| - 8 * block
  {
    hide OneFragment;
    var remaining := |p| - e - IP_HEADER_LEN - 8 * block;
    start, length, offset := 8 * block, Min(remaining, 8 * units), base + block;
    if f == OneFragment(p, e, start, length, offset) {
    } else {
      start, length, offset := FragmentIsOne(p, e, units, base, block + units, f);
    }
  }

  /** What is checked is kept. */
  lemma CheckedAgain(p: Data, e: nat, f: Data)
    requires Checked(p) == Ok(e) && e + IP_HEADER_LEN <= |f| <= e + 0xffff && SameHeader(f, p, e)
    requires WordAt(f, e + 2) == |f| - e
    ensures Checked(f) == Ok(e)
  {
    assert WordAt(f, 12) == WordAt(p, 12) && (e == 18 ==> WordAt(f, 16) == WordAt(p, 16));
    assert f[e] == p[e];
    hide SameHeader;
  }

  // Fragmenting again.

  /** The end of the payload fits the thirteen bits of an offset. */
  predicate EndFits(q: Piece) { q.payload != [] && 8 * q.offset + |q.payload| <= 8 * OFFSETS }

  lemma {:induction false} PiecesFit(pieces: seq<Piece>, whole: Piece, k: nat)
    requires Assembles(pieces, whole) && EndFits(whole) && k < |pieces|
    ensures EndFits(pieces[k])
    decreases |pieces|
  {
    if |pieces| <= 1 || k == 0 {
    } else {
      var n := |pieces[0].payload|;
      PiecesFit(pieces[1..], Piece(whole.offset + n / 8, whole.more, whole.payload[n..]), k - 1);
    }
  }

  /** What assembles the first part, followed by what assembles the rest. */
  lemma {:induction false} AssemblesJoin(a: seq<Piece>, b: seq<Piece>, whole: Piece, n: nat)
    requires 0 < n <= |whole.payload| && n % 8 == 0
    requires Assembles(a, Piece(whole.offset, true, whole.payload[..n]))
    requires Assembles(b, Piece(whole.offset + n / 8, whole.more, whole.payload[n..]))
    ensures Assembles(a + b, whole)
    decreases |a|
  {
    hide Assembles;
    var part := Piece(whole.offset, true, whole.payload[..n]);
    SomethingAssembles(b, Piece(whole.offset + n / 8, whole.more, whole.payload[n..]));
    FirstOf(a, part);
    if |a| == 1 {
      assert a + b == [a[0]] + b;
      AssembleMore(a[0], b, whole);
    } else {
      var m := |a[0].payload|;
      var rest := Piece(whole.offset + m / 8, whole.more, whole.payload[m..]);
      SomethingAssembles(a[1..], Piece(part.offset + m / 8, true, part.payload[m..]));
      assert part.payload[m..] == rest.payload[..n - m];
      assert whole.payload[n..] == rest.payload[n - m..];
      assert part.payload[..m] == whole.payload[..m];
      AssemblesJoin(a[1..], b, rest, n - m);
      assert a + b == [a[0]] + (a[1..] + b);
      AssembleMore(a[0], a[1..] + b, whole);
    }
  }

  lemma FirstOf(a: seq<Piece>, whole: Piece)
    requires Assembles(a, whole)
    ensures a != [] && a[0].offset == whole.offset && a[0].payload != []
    ensures |a| == 1 ==> a[0] == whole
    ensures |a| > 1 ==> var n := |a[0].payload|;
              && a[0].more && n % 8 == 0 && n <= |whole.payload| && a[0].payload == whole.payload[..n]
              && Assembles(a[1..], Piece(whole.offset + n / 8, whole.more, whole.payload[n..]))
  {
  }

  lemma SomethingAssembles(pieces: seq<Piece>, whole: Piece)
    requires Assembles(pieces, whole)
    ensures pieces != [] && whole.payload != []
  {
  }

  function Flattened(groups: seq<seq<Piece>>): seq<Piece> {
    if groups == [] then [] else groups[0] + Flattened(groups[1..])
  }

  /** Pieces of the pieces assemble the whole. */
  lemma {:induction false} AssemblesNested(groups: seq<seq<Piece>>, pieces: seq<Piece>, whole: Piece)
    requires Assembles(pieces, whole) && |groups| == |pieces|
    requires forall k :: 0 <= k < |pieces| ==> Assembles(groups[k], pieces[k])
    ensures Assembles(Flattened(groups), whole)
    decreases |pieces|
  {
    if |pieces| == 1 {
      assert Flattened(groups[1..]) == [];
      assert groups[0] + [] == groups[0];
    } else {
      var n := |pieces[0].payload|;
      AssemblesNested(groups[1..], pieces[1..], Piece(whole.offset + n / 8, whole.more, whole.payload[n..]));
      assert pieces[0] == Piece(whole.offset, true, whole.payload[..n]);
      AssemblesJoin(groups[0], Flattened(groups[1..]), whole, n);
    }
  }

  /** Each fragment is fragmented again, to an MTU of its own. */
  function FragmentedAgain(fragments: seq<Data>, mtus: seq<nat>, e: nat): (groups: seq<seq<Piece>>)
    requires |mtus| == |fragments| && forall f :: f in fragments ==> Checked(f) == Ok(e)
    ensures |groups| == |fragments|
  {
    if fragments == [] then [] else
    FragmentingIsUndone(fragments[0], mtus[0]);
    [PiecesOf(Fragmented(fragments[0], mtus[0]).value, e)] + FragmentedAgain(fragments[1..], mtus[1..], e)
  }

  lemma {:induction false} GroupsAssemble(fragments: seq<Data>, mtus: seq<nat>, e: nat, k: nat)
    requires |mtus| == |fragments| && (forall f :: f in fragments ==> Checked(f) == Ok(e)) && k < |fragments|
    requires AllLong(fragments, e) && EndFits(PieceOf(fragments[k], e))
    ensures |PiecesOf(fragments, e)| == |fragments| && PiecesOf(fragments, e)[k] == PieceOf(fragments[k], e)
    ensures Assembles(FragmentedAgain(fragments, mtus, e)[k], PieceOf(fragments[k], e))
    decreases |fragments|
  {
    hide Checked, PieceOf, Assembles, PiecesOf, EndFits, FragmentsFrom;
    PieceCount(fragments, e, k);
    if k == 0 {
      FragmentingIsUndone(fragments[0], mtus[0]);
      EndFitsMeans(PieceOf(fragments[0], e), MaximumPayload(mtus[0], e).value);
    } else {
      GroupsAssemble(fragments[1..], mtus[1..], e, k - 1);
    }
  }

  lemma {:induction false} PieceCount(fragments: seq<Data>, e: nat, k: nat)
    requires AllLong(fragments, e) && k < |fragments|
    ensures |PiecesOf(fragments, e)| == |fragments| && PiecesOf(fragments, e)[k] == PieceOf(fragments[k], e)
    decreases |fragments|
  {
    hide PieceOf;
    if |fragments| <= 1 {
    } else {
      PieceCount(fragments[1..], e, if k == 0 then 0 else k - 1);
    }
  }

  lemma EndFitsMeans(q: Piece, room: nat)
    requires EndFits(q) && room > 0 && room % 8 == 0
    ensures q.payload != [] && q.offset + (|q.payload| - 1) / room * (room / 8) < OFFSETS
  {
    var d, units := (|q.payload| - 1) / room, room / 8;
    assert d * room <= |q.payload| - 1;
    assert 8 * (d * units) == d * room by { assert room == 8 * units; }
  }

  /** Fragments that are fragmented again, each to its own MTU, still reassemble to the packet, if the end of its
      payload fits thirteen bits. */
  lemma FragmentingAgainIsUndone(p: Data, mtu: nat, mtus: seq<nat>)
    requires Checked(p).Ok? && EndFits(PieceOf(p, Checked(p).value)) && Fragmented(p, mtu).Ok?
    requires |mtus| == |Fragmented(p, mtu).value|
    ensures forall f :: f in Fragmented(p, mtu).value ==> Checked(f) == Checked(p)
    ensures Assembles(Flattened(FragmentedAgain(Fragmented(p, mtu).value, mtus, Checked(p).value)),
              PieceOf(p, Checked(p).value))
  {
    hide Checked, PieceOf, Assembles, Fragmented, PiecesOf, FragmentedAgain;
    var e, fragments := Checked(p).value, Fragmented(p, mtu).value;
    forall f | f in fragments ensures Checked(f) == Ok(e) && e + IP_HEADER_LEN <= |f| { EachFragment(p, mtu, f); }
    FragmentingIsUndone(p, mtu);
    EndFitsMeans(PieceOf(p, e), MaximumPayload(mtu, e).value);
    var pieces := PiecesOf(fragments, e);
    if fragments != [] { PieceCount(fragments, e, 0); } else { NoPieces(e); }
    forall k | 0 <= k < |pieces| ensures Assembles(FragmentedAgain(fragments, mtus, e)[k], pieces[k]) {
      PieceCount(fragments, e, k);
      PiecesFit(pieces, PieceOf(p, e), k);
      GroupsAssemble(fragments, mtus, e, k);
    }
    AssemblesNested(FragmentedAgain(fragments, mtus, e), pieces, PieceOf(p, e));
  }
}
