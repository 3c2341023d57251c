/** Packets changed in place on their way through: the TTL goes down, the TCP maximum segment size is clamped, and the
    checksums follow. */
module Headers {
  import opened Basics
  import opened Checksum

  const ETH_HLEN := 14
  const ETH_P_IP := 0x0800
  const ETH_P_IPV6 := 0x86dd
  const ETH_P_8021Q := 0x8100
  const PROTOCOL_IPIP := 4
  const PROTOCOL_TCP := 6
  const TCP_MIN_HEADER_LEN := 20
  const TCP_CHECKSUM := 16

  datatype HeaderError =
    | TooShort(expectedAtLeast: nat, actual: nat)
    | Expired
    | InvalidTcpHeaderLength(words: nat)
    | MtuTooSmall(mtu: nat, requiredAtLeast: nat)

  /** The ether type and the length of the Ethernet header, looking through one VLAN tag. */
  function PayloadType(p: Data): (r: Result<(u16, nat), HeaderError>)
    ensures r.Ok? ==> (r.value.1 == ETH_HLEN || r.value.1 == ETH_HLEN + 4) && r.value.1 <= |p|
    ensures r.Err? ==> r.error.TooShort?
  {
    if |p| < ETH_HLEN then Err(TooShort(ETH_HLEN, |p|))
    else if WordAt(p, 12) != ETH_P_8021Q then Ok((WordAt(p, 12), ETH_HLEN))
    else if |p| < ETH_HLEN + 4 then Err(TooShort(ETH_HLEN + 4, |p|))
    else Ok((WordAt(p, 16), ETH_HLEN + 4))
  }

  // Time to live.

  datatype TtlMutation = Decremented | NotApplicable

  function DecrementedIpv4(p: Data, e: nat): (Data, Result<TtlMutation, HeaderError>) {
    if |p| < e + 20 then (p, Err(TooShort(e + 20, |p|)))
    else if p[e + 8] <= 1 then (p, Err(Expired))
    else
      var was, now := WordAt(p, e + 8), Word(p[e + 8] - 1, p[e + 9]);
      (WithWord(WithWord(p, e + 8, now), e + 10, IncrementalUpdate(WordAt(p, e + 10), was, now)), Ok(Decremented))
  }

  function DecrementedIpv6(p: Data, e: nat): (Data, Result<TtlMutation, HeaderError>) {
    if |p| < e + 40 then (p, Err(TooShort(e + 40, |p|)))
    else if p[e + 7] <= 1 then (p, Err(Expired))
    else (p[e + 7 := p[e + 7] - 1], Ok(Decremented))
  }

  function DecrementedTtl(p: Data): (Data, Result<TtlMutation, HeaderError>) {
    var t := PayloadType(p);
    if t.Err? then (p, Err(t.error))
    else if t.value.0 == ETH_P_IP then DecrementedIpv4(p, t.value.1)
    else if t.value.0 == ETH_P_IPV6 then DecrementedIpv6(p, t.value.1)
    else (p, Ok(NotApplicable))
  }

  method DecrementTtl(packet: array<byte>) returns (r: Result<TtlMutation, HeaderError>)
    modifies packet
    ensures (packet[..], r) == DecrementedTtl(old(packet[..]))
  {
    hide PayloadType, DecrementedIpv4, DecrementedIpv6;
    var t := PayloadType(packet[..]);
    if t.Err? {
      return Err(t.error);
    }
    var (etherType, e) := t.value;
    if etherType == ETH_P_IP {
      r := DecrementIpv4Ttl(packet, e);
    } else if etherType == ETH_P_IPV6 {
      r := DecrementIpv6HopLimit(packet, e);
    } else {
      r := Ok(NotApplicable);
    }
  }

  method DecrementIpv4Ttl(packet: array<byte>, e: nat) returns (r: Result<TtlMutation, HeaderError>)
    modifies packet
    ensures (packet[..], r) == DecrementedIpv4(old(packet[..]), e)
  {
    hide IncrementalUpdate;
    ghost var before := packet[..];
    if packet.Length < e + 20 {
      return Err(TooShort(e + 20, packet.Length));
    }
    var ttl, protocol := packet[e + 8], packet[e + 9];
    if ttl <= 1 {
      return Err(Expired);
    }
    var was, now := Word(ttl, protocol), Word(ttl - 1, protocol);
    packet[e + 8] := ttl - 1;
    assert packet[..] == WithWord(before, e + 8, now) by {
      OnlyHighByte(before, e + 8, ttl - 1);
    }
    hide WithWord, Word;
    var checksum := IncrementalUpdate(Word(packet[e + 10], packet[e + 11]), was, now);
    WriteWord(packet, e + 10, checksum);
    r := Ok(Decremented);
  }

  method DecrementIpv6HopLimit(packet: array<byte>, e: nat) returns (r: Result<TtlMutation, HeaderError>)
    modifies packet
    ensures (packet[..], r) == DecrementedIpv6(old(packet[..]), e)
  {
    if packet.Length < e + 40 {
      return Err(TooShort(e + 40, packet.Length));
    }
    if packet[e + 7] <= 1 {
      return Err(Expired);
    }
    packet[e + 7] := packet[e + 7] - 1;
    r := Ok(Decremented);
  }

  lemma OnlyHighByte(p: Data, i: nat, b: byte)
    requires i + 2 <= |p|
    ensures WithWord(p, i, Word(b, p[i + 1])) == p[i := b]
  {
    hide High, Low, Word;
    var now := Word(b, p[i + 1]);
    WordOf(0, b, p[i + 1]);
    assert High(now) == b && Low(now) == p[i + 1];
    assert p[i := b][i + 1 := p[i + 1]] == p[i := b];
  }

  method WriteWord(packet: array<byte>, i: nat, w: u16)
    requires i + 2 <= packet.Length
    modifies packet
    ensures packet[..] == WithWord(old(packet[..]), i, w)
  {
    packet[i] := High(w);
    packet[i + 1] := Low(w);
  }

  /** Words written inside a part of the packet. */
  lemma WithWordInside(p: Data, e: nat, end: nat, i: nat, w: u16)
    requires e <= i && i + 2 <= end <= |p|
    ensures WithWord(p, i, w)[e..end] == WithWord(p[e..end], i - e, w)
    ensures WordAt(p, i) == WordAt(p[e..end], i - e)
  {
  }

  /** However long the IPv4 header is, it verifies after the TTL went down exactly when it did before; and besides the
      TTL and the checksum nothing has changed. */
  lemma TtlKeepsChecksum(p: Data, end: nat)
    requires PayloadType(p).Ok? && PayloadType(p).value.0 == ETH_P_IP && DecrementedTtl(p).1 == Ok(Decremented)
    requires var e := PayloadType(p).value.1; e + 20 <= end <= |p| && (end - e) % 2 == 0
    ensures var (e, q) := (PayloadType(p).value.1, DecrementedTtl(p).0);
            && |q| == |p| && q[e + 8] == p[e + 8] - 1
            && (forall i :: 0 <= i < |p| && i != e + 8 && i != e + 10 && i != e + 11 ==> q[i] == p[i])
            && (Verifies(q[e..end]) <==> Verifies(p[e..end]))
  {
    var e := PayloadType(p).value.1;
    Ipv4TtlKeepsChecksum(p, e, end);
    hide PayloadType, DecrementedIpv4, Verifies;
  }

  lemma Ipv4TtlKeepsChecksum(p: Data, e: nat, end: nat)
    requires DecrementedIpv4(p, e).1 == Ok(Decremented) && e + 20 <= end <= |p| && (end - e) % 2 == 0
    ensures var q := DecrementedIpv4(p, e).0;
            && |q| == |p| && q[e + 8] == p[e + 8] - 1
            && (forall i :: 0 <= i < |p| && i != e + 8 && i != e + 10 && i != e + 11 ==> q[i] == p[i])
            && (Verifies(q[e..end]) <==> Verifies(p[e..end]))
  {
    var h, now := p[e..end], Word(p[e + 8] - 1, p[e + 9]);
    var checksum := IncrementalUpdate(WordAt(p, e + 10), WordAt(p, e + 8), now);
    UpdateKeepsVerifying(h, 8, 10, now);
    hide Verifies, IncrementalUpdate, High, Low, WordSum;
    OnlyHighByte(p, e + 8, p[e + 8] - 1);
    WithWordInside(p, e, end, e + 8, now);
    WithWordInside(WithWord(p, e + 8, now), e, end, e + 10, checksum);
  }

  // Maximum segment size.

  datatype MssClamp = Clamped(was: u16, now: u16) | AlreadySmall(current: u16, maximum: u16) | NoMssOption | NotTcp

  /** Where the TCP header starts, looking through one IPv4 header that carries another. */
  function TcpStart(p: Data, etherType: u16, e: nat): Result<Option<nat>, HeaderError> {
    if etherType == ETH_P_IP then
      if |p| < e + 20 then Err(TooShort(e + 20, |p|))
      else if p[e + 9] == PROTOCOL_IPIP && |p| < e + 40 then Err(TooShort(e + 40, |p|))
      else
        var ip := if p[e + 9] == PROTOCOL_IPIP then e + 20 else e;
        Ok(if p[ip + 9] == PROTOCOL_TCP then Some(ip + p[ip] % 16 * 4) else None)
    else if etherType == ETH_P_IPV6 then
      if |p| < e + 40 then Err(TooShort(e + 40, |p|))
      else Ok(if p[e + 6] == PROTOCOL_TCP then Some(e + 40) else None)
    else Ok(None)
  }

  function MaximumMss(mtu: nat, tcp: nat): Result<u16, HeaderError> {
    if mtu < tcp + 21 || mtu - tcp - 20 > 0xffff then Err(MtuTooSmall(mtu, tcp + 21)) else Ok(mtu - tcp - 20)
  }

  /** Where the value of the first maximum segment size option lies, if the options up to it are well formed. */
  function FindMss(options: Data, offset: nat): (r: Option<nat>)
    ensures r.Some? ==> offset + 2 <= r.value && r.value + 2 <= |options|
    decreases |options| - offset
  {
    if offset >= |options| || options[offset] == 0 then None
    else if options[offset] == 1 then FindMss(options, offset + 1)
    else if offset + 1 >= |options| then None
    else
      var length := options[offset + 1];
      if options[offset] == 2 then
        if length != 4 || offset + length > |options| then None else Some(offset + 2)
      else if length < 2 || offset + length > |options| then None
      else FindMss(options, offset + length)
  }

  /** The value at `m` of the option is lowered to `maximum`, and the checksum updated for it. */
  function Lowered(p: Data, tcp: nat, m: nat, maximum: u16): Data
    requires tcp + 20 <= m && m + 2 <= |p|
  {
    var checksum := TransportUpdate(WordAt(p, tcp + TCP_CHECKSUM), WordAt(p, m), maximum);
    WithWord(WithWord(p, m, maximum), tcp + TCP_CHECKSUM, checksum)
  }

  function ClampedAt(p: Data, tcp: nat, mtu: nat): (Data, Result<MssClamp, HeaderError>) {
    if |p| == tcp + 20 then (p, Ok(NoMssOption))
    else if |p| < tcp + 20 then (p, Err(TooShort(tcp + 20, |p|)))
    else
      var words := p[tcp + 12] / 16;
      if words < 5 then (p, Err(InvalidTcpHeaderLength(words)))
      else if words == 5 then (p, Ok(NoMssOption))
      else if |p| < tcp + words * 4 then (p, Err(TooShort(tcp + words * 4, |p|)))
      else
        var maximum := MaximumMss(mtu, tcp);
        if maximum.Err? then (p, Err(maximum.error)) else
        var found := FindMss(p[tcp + 20..tcp + words * 4], 0);
        if found.None? then (p, Ok(NoMssOption)) else
        var m := tcp + 20 + found.value;
        if WordAt(p, m) <= maximum.value then (p, Ok(AlreadySmall(WordAt(p, m), maximum.value)))
        else (Lowered(p, tcp, m, maximum.value), Ok(Clamped(WordAt(p, m), maximum.value)))
  }

  function ClampedMss(p: Data, mtu: nat): (Data, Result<MssClamp, HeaderError>) {
    var t := PayloadType(p);
    if t.Err? then (p, Err(t.error)) else
    var tcp := TcpStart(p, t.value.0, t.value.1);
    if tcp.Err? then (p, Err(tcp.error))
    else if tcp.value.None? then (p, Ok(NotTcp))
    else ClampedAt(p, tcp.value.value, mtu)
  }

  method ScanOptions(packet: array<byte>, first: nat, end: nat) returns (found: Option<nat>)
    requires first <= end <= packet.Length
    ensures found == FindMss(packet[first..end], 0)
  {
    ghost var options := packet[first..end];
    var length, offset := end - first, 0;
    while offset < length
      invariant FindMss(options, 0) == FindMss(options, offset)
      decreases length - offset
    {
      var kind := packet[first + offset];
      if kind == 0 {
        break;
      } else if kind == 1 {
        offset := offset + 1;
      } else {
        if offset + 1 >= length {
          break;
        }
        var optionLength := packet[first + offset + 1];
        if kind == 2 {
          if optionLength != 4 || offset + optionLength > length {
            break;
          }
          return Some(offset + 2);
        }
        if optionLength < 2 || offset + optionLength > length {
          break;
        }
        offset := offset + optionLength;
      }
    }
    found := None;
  }

  method ClampTcpMss(packet: array<byte>, mtu: nat) returns (r: Result<MssClamp, HeaderError>)
    modifies packet
    ensures (packet[..], r) == ClampedMss(old(packet[..]), mtu)
  {
    hide PayloadType, TcpStart, FindMss, TransportUpdate, WithWord, MaximumMss;
    var t := PayloadType(packet[..]);
    if t.Err? {
      return Err(t.error);
    }
    var start := TcpStart(packet[..], t.value.0, t.value.1);
    if start.Err? {
      return Err(start.error);
    }
    if start.value.None? {
      return Ok(NotTcp);
    }
    var tcp := start.value.value;
    if packet.Length == tcp + TCP_MIN_HEADER_LEN {
      return Ok(NoMssOption);
    }
    if packet.Length < tcp + TCP_MIN_HEADER_LEN {
      return Err(TooShort(tcp + TCP_MIN_HEADER_LEN, packet.Length));
    }
    var words := packet[tcp + 12] / 16;
    if words < 5 {
      return Err(InvalidTcpHeaderLength(words));
    }
    if words == 5 {
      return Ok(NoMssOption);
    }
    if packet.Length < tcp + words * 4 {
      return Err(TooShort(tcp + words * 4, packet.Length));
    }
    var maximum := MaximumMss(mtu, tcp);
    if maximum.Err? {
      return Err(maximum.error);
    }
    assert packet[..][tcp + 20..tcp + words * 4] == packet[tcp + 20..tcp + words * 4];
    var found := ScanOptions(packet, tcp + TCP_MIN_HEADER_LEN, tcp + words * 4);
    if found.None? {
      return Ok(NoMssOption);
    }
    r := Lower(packet, tcp, tcp + TCP_MIN_HEADER_LEN + found.value, maximum.value);
  }

  method Lower(packet: array<byte>, tcp: nat, m: nat, maximum: u16) returns (r: Result<MssClamp, HeaderError>)
    requires tcp + TCP_MIN_HEADER_LEN <= m && m + 2 <= packet.Length
    modifies packet
    ensures var p := old(packet[..]);
            if WordAt(p, m) <= maximum then packet[..] == p && r == Ok(AlreadySmall(WordAt(p, m), maximum))
            else packet[..] == Lowered(p, tcp, m, maximum) && r == Ok(Clamped(WordAt(p, m), maximum))
  {
    hide TransportUpdate;
    var was := Word(packet[m], packet[m + 1]);
    if was <= maximum {
      return Ok(AlreadySmall(was, maximum));
    }
    WriteWord(packet, m, maximum);
    var field := tcp + TCP_CHECKSUM;
    var checksum := TransportUpdate(Word(packet[field], packet[field + 1]), was, maximum);
    WriteWord(packet, field, checksum);
    r := Ok(Clamped(was, maximum));
  }

  lemma LoweredInside(p: Data, tcp: nat, m: nat, maximum: u16, end: nat)
    requires tcp + 20 <= m && m + 2 <= end <= |p|
    ensures |Lowered(p, tcp, m, maximum)| == |p|
    ensures Lowered(p, tcp, m, maximum)[tcp..end] == Updated(p[tcp..end], TCP_CHECKSUM, m - tcp, maximum)
    ensures WordAt(p[tcp..end], m - tcp) == WordAt(p, m)
  {
    hide TransportUpdate, High, Low;
    WithWordInside(p, tcp, end, m, maximum);
    WithWordInside(p, tcp, end, tcp + TCP_CHECKSUM, 0);
    var c := TransportUpdate(WordAt(p, tcp + TCP_CHECKSUM), WordAt(p, m), maximum);
    WithWordInside(WithWord(p, m, maximum), tcp, end, tcp + TCP_CHECKSUM, c);
  }

  /** Where the TCP options end. */
  function OptionsEnd(p: Data, tcp: nat): nat
    requires |p| > tcp + 12
  {
    tcp + p[tcp + 12] / 16 * 4
  }

  /** A TCP checksum that was exact is exact after clamping if and only if the option's value lies at an even offset of
      the TCP header or the value went down by a multiple of 257. `pseudo` is the sum of the pseudo-header. */
  lemma ClampKeepsChecksum(p: Data, tcp: nat, mtu: nat, pseudo: nat, end: nat) returns (offset: nat)
    requires ClampedAt(p, tcp, mtu).1.Ok? && ClampedAt(p, tcp, mtu).1.value.Clamped?
    requires OptionsEnd(p, tcp) <= end <= |p| && pseudo > 0
    requires WordAt(p[tcp..end], TCP_CHECKSUM) == TransportChecksum(pseudo, p[tcp..end], TCP_CHECKSUM)
    ensures FindMss(p[tcp + 20..OptionsEnd(p, tcp)], 0) == Some(offset - 20)
    ensures |ClampedAt(p, tcp, mtu).0| == |p|
    ensures (WordAt(ClampedAt(p, tcp, mtu).0[tcp..end], TCP_CHECKSUM)
             == TransportChecksum(pseudo, ClampedAt(p, tcp, mtu).0[tcp..end], TCP_CHECKSUM))
       <==> (offset % 2 == 0 || (ClampedAt(p, tcp, mtu).1.value.was as int - ClampedAt(p, tcp, mtu).1.value.now) % 257
         == 0)
  {
    hide WordSum, TransportUpdate, TransportChecksum, FindMss, MaximumMss, Updated, Lowered, WordAt, WithWord;
    offset := 20 + FindMss(p[tcp + 20..OptionsEnd(p, tcp)], 0).value;
    var maximum := MaximumMss(mtu, tcp).value;
    LoweredInside(p, tcp, tcp + offset, maximum, end);
    TransportUpdateAgrees(pseudo, p[tcp..end], TCP_CHECKSUM, offset, maximum);
  }

  /** A SYN segment from 10.0.0.1 to 10.0.0.2 that asks for segments of 1460 bytes. One option of a single byte stands
      before the maximum segment size, so its value lies at offset 23 of the TCP header. */
  const SYN_HEADER: Data := [4, 0, 0, 80, 0, 0, 0, 0, 0, 0, 0, 0, 112, 2, 255, 255, 189, 126, 0, 0]
  const SYN_OPTIONS: Data := [1, 2, 4, 5, 180, 1, 1, 1]
  const SYN_IP: Data := [69, 0, 0, 48, 0, 0, 64, 0, 64, 6, 38, 198, 10, 0, 0, 1, 10, 0, 0, 2]
  const SYN_ETHERNET: Data := [0, 0, 0, 0, 0, 0, 0, 0, 0, 0, 0, 0, 8, 0]

  /** The words of the two addresses, the protocol and the length of the segment. */
  const SYN_PSEUDO := 0x0a00 + 1 + 0x0a00 + 2 + 6 + 28

  function SynPacket(): Data { SYN_ETHERNET + SYN_IP + SYN_HEADER + SYN_OPTIONS }

  lemma SynBytes()
    ensures var p := SynPacket();
            && |p| == 62 && p[12] == 8 && p[13] == 0 && p[14] == 69 && p[23] == 6 && p[46] == 112 && p[57] == 5
            && p[58] == 180
            && p[54..62] == SYN_OPTIONS && p[34..62] == SYN_HEADER + SYN_OPTIONS
  {
  }

  lemma SynIsClamped()
    ensures |SynPacket()| == 62 && ClampedMss(SynPacket(), 1400) == ClampedAt(SynPacket(), 34, 1400)
    ensures ClampedAt(SynPacket(), 34, 1400).1 == Ok(Clamped(1460, 1346))
    ensures FindMss(SynPacket()[54..62], 0) == Some(3)
    ensures SynPacket()[34..62] == SYN_HEADER + SYN_OPTIONS && OptionsEnd(SynPacket(), 34) == 62
  {
    SynBytes();
    hide SynPacket, Lowered;
    var p := SynPacket();
    SynOption();
    assert PayloadType(p) == Ok((ETH_P_IP, 14)) && TcpStart(p, ETH_P_IP, 14) == Ok(Some(34));
    hide PayloadType, TcpStart, FindMss;
  }

  lemma SynOption()
    ensures FindMss(SYN_OPTIONS, 0) == Some(3)
  {
    assert FindMss(SYN_OPTIONS, 1) == Some(3);
  }

  lemma {:induction false} WordSumSplits(a: Data, b: Data)
    requires |a| % 2 == 0
    ensures WordSum(a + b) == WordSum(a) + WordSum(b)
    decreases |a|
  {
    if a == [] {
      assert a + b == b;
    } else {
      assert (a + b)[2..] == a[2..] + b;
      WordSumSplits(a[2..], b);
    }
  }

  lemma FourBytes(a: byte, b: byte, c: byte, d: byte)
    ensures WordSum([a, b, c, d]) == Word(a, b) + Word(c, d)
  {
    var rest: Data, none: Data := [c, d], [];
    assert [a, b, c, d][2..] == rest && rest[2..] == none;
    assert WordSum(none) == 0 && WordSum(rest) == Word(c, d);
  }

  lemma SynChecksumIsExact()
    ensures |SYN_HEADER + SYN_OPTIONS| == 28
    ensures WordAt(SYN_HEADER + SYN_OPTIONS, TCP_CHECKSUM)
              == TransportChecksum(SYN_PSEUDO, SYN_HEADER + SYN_OPTIONS, TCP_CHECKSUM)
  {
    SynSum();
    hide WordSum, WithWord;
    assert Fold(148095) == 0x4281 by { assert Fold(0x4281) == 0x4281; }
    assert (SYN_HEADER + SYN_OPTIONS)[16] == 189 && (SYN_HEADER + SYN_OPTIONS)[17] == 126;
  }

  lemma SynSum()
    ensures WordSum(WithWord(SYN_HEADER + SYN_OPTIONS, TCP_CHECKSUM, 0)) == 142938
  {
    var a: Data, b: Data, c: Data, d: Data := [4, 0, 0, 80], [0, 0, 0, 0], [112, 2, 255, 255], [1, 2, 4, 5];
    var e: Data := [180, 1, 1, 1];
    FourBytes(4, 0, 0, 80);
    FourBytes(0, 0, 0, 0);
    FourBytes(112, 2, 255, 255);
    FourBytes(1, 2, 4, 5);
    FourBytes(180, 1, 1, 1);
    hide WordSum;
    SynBlanked(a, b, c, d, e);
    WordSumSplits(a, b + (b + (c + (b + (d + e)))));
    WordSumSplits(b, b + (c + (b + (d + e))));
    WordSumSplits(b, c + (b + (d + e)));
    WordSumSplits(c, b + (d + e));
    WordSumSplits(b, d + e);
    WordSumSplits(d, e);
    hide WithWord;
  }

  lemma SynBlanked(a: Data, b: Data, c: Data, d: Data, e: Data)
    requires a == [4, 0, 0, 80] && b == [0, 0, 0, 0] && c == [112, 2, 255, 255] && d == [1, 2, 4, 5]
             && e == [180, 1, 1, 1]
    ensures WithWord(SYN_HEADER + SYN_OPTIONS, TCP_CHECKSUM, 0) == a + (b + (b + (c + (b + (d + e)))))
  {
  }

  /** Clamping this segment for an MTU of 1400 lowers the value by 114, and the TCP checksum, exact before, is wrong
      after. */
  lemma ClampCanBreakChecksum()
    ensures var (p, out) := (SynPacket(), ClampedMss(SynPacket(), 1400));
            && out.1 == Ok(Clamped(1460, 1346)) && |out.0| == |p| == 62
            && WordAt(p[34..62], TCP_CHECKSUM) == TransportChecksum(SYN_PSEUDO, p[34..62], TCP_CHECKSUM)
            && WordAt(out.0[34..62], TCP_CHECKSUM) != TransportChecksum(SYN_PSEUDO, out.0[34..62], TCP_CHECKSUM)
  {
    SynIsClamped();
    SynChecksumIsExact();
    hide SynPacket, ClampedMss, ClampedAt, FindMss, TransportChecksum;
    var offset := ClampKeepsChecksum(SynPacket(), 34, 1400, SYN_PSEUDO, 62);
    assert (1460 - 1346) % 257 != 0;
  }

  /** After clamping, a second clamp finds a value that is small enough and leaves the packet alone. */
  lemma ClampIsIdempotent(p: Data, tcp: nat, mtu: nat)
    requires ClampedAt(p, tcp, mtu).1.Ok? && ClampedAt(p, tcp, mtu).1.value.Clamped?
    ensures var (q, r) := ClampedAt(p, tcp, mtu);
            ClampedAt(q, tcp, mtu) == (q, Ok(AlreadySmall(r.value.now, MaximumMss(mtu, tcp).value)))
  {
    var words, maximum := p[tcp + 12] / 16, MaximumMss(mtu, tcp).value;
    var options := p[tcp + 20..tcp + words * 4];
    var m := tcp + 20 + FindMss(options, 0).value;
    var q := ClampedAt(p, tcp, mtu).0;
    hide TransportUpdate, MaximumMss;
    WrittenWord(p, m, maximum);
    assert q[m] == WithWord(p, m, maximum)[m] && q[m + 1] == WithWord(p, m, maximum)[m + 1];
    assert q[tcp + 12] == p[tcp + 12];
    hide High, Low;
    FindsSame(options, q[tcp + 20..tcp + words * 4], 0);
  }

  /** The search does not look at the value itself, nor at what follows. */
  lemma {:induction false} FindsSame(a: Data, b: Data, offset: nat)
    requires |a| == |b| && FindMss(a, offset).Some?
    requires forall i :: 0 <= i < FindMss(a, offset).value ==> a[i] == b[i]
    ensures FindMss(b, offset) == FindMss(a, offset)
    decreases |a| - offset
  {
    if a[offset] == 1 {
      assert FindMss(a, offset + 1).value > offset;
      FindsSame(a, b, offset + 1);
    } else if a[offset] != 2 {
      FindsSame(a, b, offset + a[offset + 1]);
    }
  }
}
