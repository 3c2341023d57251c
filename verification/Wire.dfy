/** Meta messages as lines of text: printing, parsing, and the SPTPS payloads inside key messages. */
module Wire {
  import opened Basics
  import opened Names
  import opened Topology
  import opened Subnets
  import opened Messages
  import opened Text
  import Base64

  const DEFAULT_WEIGHT := 10
  const MAX_NET_STR := 64
  const MIN_MTU := 512
  const MAX_PACKET := 0x7fff

  datatype ParseError =
    | BogusData
    | UnknownRequest(number: int)
    | UnsupportedRequest(request: int)
    | MissingField(field: string)
    | InvalidNonce(text: string)
    | InvalidProtocolVersion(text: string)
    | InvalidOptions(text: string)
    | InvalidWeight(text: string)
    | InvalidInteger(field: string, text: string)
    | InvalidLength(length: int)
    | InvalidMtu(mtu: int)
    | InvalidName(text: string)
    | SelfEdge(text: string)
    | InvalidSubnet(text: string)

  type Parsed<+T> = Result<T, ParseError>

  /** How the standard library writes and reads addresses. */
  datatype AddressText = AddressText(
    showMac: seq<byte> -> string, show4: seq<byte> -> string, show6: seq<byte> -> string,
    readMac: string -> Option<seq<byte>>, read4: string -> Option<seq<byte>>, read6: string -> Option<seq<byte>>)

  // Subnets.

  function ShowAddress(t: AddressText, kind: SubnetKind): string {
    match kind
    case Mac(a) => t.showMac(a)
    case Ipv4(a, _) => t.show4(a)
    case Ipv6(a, _) => t.show6(a)
  }

  function ShowSubnet(t: AddressText, s: Subnet): string {
    ShowAddress(t, s.kind)
    + (if (s.kind.Ipv4? && s.kind.prefixLen != 32) || (s.kind.Ipv6? && s.kind.prefixLen != 128)
      then "/" + Show(s.kind.prefixLen, 10) else "")
    + (if s.weight != DEFAULT_WEIGHT then "#" + ShowInt(s.weight) else "")
  }

  /** The text before and after the first `c`, if there is one. */
  function SplitOnce(s: string, c: char): Option<(string, string)> {
    if s == "" then None
    else if s[0] == c then Some(("", s[1..]))
    else
      var rest := SplitOnce(s[1..], c);
      if rest.None? then None else Some(([s[0]] + rest.value.0, rest.value.1))
  }

  function AsciiTrimmed(s: string): string
    decreases |s|
  {
    if s != "" && AsciiWhite(s[0]) then AsciiTrimmed(s[1..]) else s
  }

  /** A number as the C library reads it: space before it is skipped, space after it is not. */
  function ParseCInt(s: string): Option<int> {
    var t := AsciiTrimmed(s);
    if t == "" || exists i :: 0 <= i < |t| && AsciiWhite(t[i]) then None else ParseI32(t)
  }

  function ParsePrefix(s: Option<string>, most: nat): Option<nat> {
    if s.None? then Some(most)
    else
      var n := ParseCInt(s.value);
      if n.None? || n.value < 0 || n.value > most then None else Some(n.value)
  }

  function ParseSubnet(t: AddressText, input: string): Option<Subnet> {
    if input == "" || |input| >= MAX_NET_STR then None
    else
      var hash := SplitOnce(input, '#');
      var weight := if hash.None? then Some(DEFAULT_WEIGHT) else ParseCInt(hash.value.1);
      if weight.None? then None else
      var net := if hash.None? then input else hash.value.0;
      var slash := SplitOnce(net, '/');
      var address := if slash.None? then net else slash.value.0;
      var prefix := if slash.None? then None else Some(slash.value.1);
      if prefix.Some? && ParseCInt(prefix.value).None? then None
      else if t.readMac(address).Some? then
        if prefix.Some? then None else Some(Subnet(Mac(t.readMac(address).value), weight.value, None, None))
      else if t.read4(address).Some? then
        var n := ParsePrefix(prefix, 32);
        if n.None? then None else Some(Subnet(Ipv4(t.read4(address).value, n.value), weight.value, None, None))
      else if t.read6(address).Some? then
        var n := ParsePrefix(prefix, 128);
        if n.None? then None else Some(Subnet(Ipv6(t.read6(address).value, n.value), weight.value, None, None))
      else None
  }

  /** The address is read back as it was written, by no reader that is tried before, and is short and plain. */
  ghost predicate Readable(t: AddressText, kind: SubnetKind) {
    var text := ShowAddress(t, kind);
    && IsWord(text) && |text| <= 45 && '/' !in text && '#' !in text
    && match kind
       case Mac(a) => t.readMac(text) == Some(a)
       case Ipv4(a, _) => t.readMac(text) == None && t.read4(text) == Some(a)
       case Ipv6(a, _) => t.readMac(text) == None && t.read4(text) == None && t.read6(text) == Some(a)
  }

  /** An ownerless subnet that never expires, with a prefix and a weight in range. */
  ghost predicate PrintableSubnet(t: AddressText, s: Subnet) {
    && Readable(t, s.kind) && s.owner == None && s.expires == None && MIN_I32 <= s.weight <= MAX_I32
    && (s.kind.Ipv4? ==> s.kind.prefixLen <= 32) && (s.kind.Ipv6? ==> s.kind.prefixLen <= 128)
  }

  lemma {:induction false} SplitAt(a: string, c: char, b: string)
    requires c !in a
    ensures SplitOnce(a + [c] + b, c) == Some((a, b))
    ensures SplitOnce(a, c) == None
  {
    if a == "" {
      assert a + [c] + b == [c] + b && ([c] + b)[1..] == b;
    } else {
      SplitAt(a[1..], c, b);
      assert (a + [c] + b)[1..] == a[1..] + [c] + b && (a + [c] + b)[0] == a[0];
      assert [a[0]] + a[1..] == a;
    }
  }

  lemma CIntReturns(n: int)
    requires MIN_I32 <= n <= MAX_I32
    ensures ParseCInt(ShowInt(n)) == Some(n)
  {
    hide ShowInt, White, ParseInt;
    var s := ShowInt(n);
    ShowIntIsWord(n);
    forall i | 0 <= i < |s| ensures !AsciiWhite(s[i]) { NotWhite(s[i]); }
    IntReturns(n, MIN_I32, MAX_I32);
  }

  lemma NotWhite(c: char)
    requires !White(c)
    ensures !AsciiWhite(c)
  {
  }

  lemma PlainMarks()
    ensures IsWord("/") && IsWord("#") && IsWord(".")
  {
  }

  /** The digits of a bounded number. */
  lemma {:induction false} ShowLength(n: nat, digits: nat)
    requires n < Power(10, digits) && digits > 0
    ensures |Show(n, 10)| <= digits
    decreases digits
  {
    if n < 10 {
    } else {
      assert Power(10, digits) == 10 * Power(10, digits - 1);
      assert Power(10, 0) == 1;
      ShowLength(n / 10, digits - 1);
    }
  }

  lemma IntLength(n: int)
    requires MIN_I32 <= n <= MAX_I32
    ensures |ShowInt(n)| <= 11
  {
    assert Power(10, 5) == 100000;
    assert Power(10, 10) == 10_000_000_000;
    ShowLength(if n < 0 then -n else n, 10);
    hide Show;
  }

  lemma PrefixLength(n: nat)
    requires n <= 128
    ensures |Show(n, 10)| <= 3
  {
    assert Power(10, 3) == 1000;
    ShowLength(n, 3);
    hide Show;
  }

  lemma NoMarks(n: int)
    ensures '#' !in ShowInt(n) && '/' !in ShowInt(n)
  {
    hide Show;
    var m := if n < 0 then -n else n;
    ShowIsDigits(m, 10);
    assert Digit('#', 10) == None && Digit('/', 10) == None;
    hide Digit;
  }

  lemma SubnetReturns(t: AddressText, s: Subnet)
    requires PrintableSubnet(t, s)
    ensures ParseSubnet(t, ShowSubnet(t, s)) == Some(s)
    ensures IsWord(ShowSubnet(t, s))
  {
    var hasPrefix := (s.kind.Ipv4? && s.kind.prefixLen != 32) || (s.kind.Ipv6? && s.kind.prefixLen != 128);
    var net := ShowAddress(t, s.kind) + if hasPrefix then "/" + Show(s.kind.prefixLen, 10) else "";
    NetReturns(t, s, net);
    WeightReturns(t, s, net);
    IntLength(s.weight);
    CIntReturns(s.weight);
    hide ShowAddress, Show, ShowInt, ParseCInt, ParsePrefix, White, Readable, SplitOnce, ShowSubnet;
  }

  /** The weight follows the net behind a mark, unless it is the default. */
  lemma WeightReturns(t: AddressText, s: Subnet, net: string)
    requires PrintableSubnet(t, s) && '#' !in net && IsWord(net)
    requires var hasPrefix := (s.kind.Ipv4? && s.kind.prefixLen != 32) || (s.kind.Ipv6? && s.kind.prefixLen != 128);
             net == ShowAddress(t, s.kind) + if hasPrefix then "/" + Show(s.kind.prefixLen, 10) else ""
    ensures var (text, weight) := (ShowSubnet(t, s), ShowInt(s.weight));
            && IsWord(text)
            && |text| == |net| + (if s.weight != DEFAULT_WEIGHT then 1 + |weight| else 0)
            && SplitOnce(text, '#') == (if s.weight != DEFAULT_WEIGHT then Some((net, weight)) else None)
            && (s.weight == DEFAULT_WEIGHT ==> text == net)
  {
    NoMarks(s.weight);
    ShowIntIsWord(s.weight);
    hide ShowAddress, Show, ShowInt, White, Readable, PrintableSubnet;
    if s.weight != DEFAULT_WEIGHT {
      assert ShowSubnet(t, s) == net + ['#'] + ShowInt(s.weight);
      PlainMarks();
      SplitAt(net, '#', ShowInt(s.weight));
    } else {
      assert ShowSubnet(t, s) == net;
      SplitAt(net, '#', "");
    }
  }

  /** The part of a subnet before its weight. */
  lemma NetReturns(t: AddressText, s: Subnet, net: string)
    requires PrintableSubnet(t, s)
    requires var hasPrefix := (s.kind.Ipv4? && s.kind.prefixLen != 32) || (s.kind.Ipv6? && s.kind.prefixLen != 128);
             net == ShowAddress(t, s.kind) + if hasPrefix then "/" + Show(s.kind.prefixLen, 10) else ""
    ensures '#' !in net && IsWord(net) && |net| <= 49
    ensures var slash := SplitOnce(net, '/');
            && (slash.None? ==> net == ShowAddress(t, s.kind))
              && (slash.Some? ==> slash.value.0 == ShowAddress(t, s.kind))
            && (slash.Some? <==> (s.kind.Ipv4? && s.kind.prefixLen != 32) || (s.kind.Ipv6? && s.kind.prefixLen != 128))
            && (slash.Some? ==> ParseCInt(slash.value.1) == Some(s.kind.prefixLen))
  {
    hide ShowAddress, Show, ParseCInt, White;
    var address := ShowAddress(t, s.kind);
    if (s.kind.Ipv4? && s.kind.prefixLen != 32) || (s.kind.Ipv6? && s.kind.prefixLen != 128) {
      var p := s.kind.prefixLen;
      PrefixLength(p);
      NoMarks(p);
      CIntReturns(p);
      ShowIntIsWord(p);
      SplitAt(address, '/', Show(p, 10));
      assert net == address + ['/'] + Show(p, 10);
      ShowIsWord(p, 10);
      PlainMarks();
    } else {
      assert net == address;
      SplitAt(address, '/', "");
    }
  }

  // Messages.

  /** The number of a message's request. */
  function RequestNumber(m: MetaMessage): nat {
    match m
    case Id(_, _, _) => 0
    case MetaKey(_, _, _, _, _) => 1
    case Challenge(_) => 2
    case ChallengeReply(_) => 3
    case Ack(_) => 4
    case TerminateRequest => 7
    case Ping => 8
    case Pong => 9
    case AddSubnet(_) => 10
    case DeleteSubnet(_) => 11
    case AddEdge(_) => 12
    case DeleteEdge(_) => 13
    case KeyChanged(_, _) => 14
    case RequestKey(_, _, _) => 15
    case AnswerKey(_, _, _, _, _, _, _, _) => 16
    case TcpPacket(_) => 17
    case SptpsTcpPacket(_) => 21
    case UdpInfo(_, _, _) => 22
    case MtuInfo(_, _, _) => 23
  }

  function Hex(n: nat): string { Show(n, 16) }

  function EndpointFields(e: Option<Endpoint>): seq<string> {
    if e.None? then [] else [e.value.address, e.value.port]
  }

  /** The fields after the request number, in the order they are printed. */
  function Fields(t: AddressText, m: MetaMessage): seq<string> {
    match m
    case Id(name, major, minor) => [name, ShowInt(major) + "." + ShowInt(if minor.Some? then minor.value else 0)]
    case MetaKey(cipher, digest, macLength, compression, key) =>
      [ShowInt(cipher), ShowInt(digest), ShowInt(macLength), ShowInt(compression), key]
    case Challenge(data) => [data]
    case ChallengeReply(reply) => [reply]
    case Ack(ack) => AckFields(ack)
    case TerminateRequest => []
    case Ping => []
    case Pong => []
    case AddSubnet(s) => [Hex(s.nonce), s.owner.text, ShowSubnet(t, s.subnet)]
    case DeleteSubnet(s) => [Hex(s.nonce), s.owner.text, ShowSubnet(t, s.subnet)]
    case AddEdge(e) =>
      [Hex(e.nonce), e.edge.from.text, e.edge.to.text, e.address, e.port, Hex(e.edge.options), ShowInt(e.edge.weight)]
        + EndpointFields(e.local)
    case DeleteEdge(e) => [Hex(e.nonce), e.from.text, e.to.text]
    case KeyChanged(nonce, origin) => [Hex(nonce), origin.text]
    case RequestKey(from, dest, extension) => [from.text, dest.text] + ExtensionFields(extension)
    case AnswerKey(from, dest, key, cipher, digest, macLength, compression, address) =>
      [from.text, dest.text, key, ShowInt(cipher), ShowInt(digest), ShowInt(macLength), ShowInt(compression)]
        + EndpointFields(address)
    case TcpPacket(length) => [ShowInt(length)]
    case SptpsTcpPacket(length) => [ShowInt(length)]
    case UdpInfo(from, dest, e) => [from.text, dest.text, e.address, e.port]
    case MtuInfo(from, dest, mtu) => [from.text, dest.text, ShowInt(mtu)]
  }

  function AckFields(ack: AckMessage): seq<string> {
    match ack
    case Connection(port, weight, options) => [port, ShowInt(weight), Hex(options)]
    case Payload(text) => [text]
    case Control(version, pid) => [ShowInt(version), ShowInt(pid)]
  }

  function ExtensionFields(x: Option<RequestKeyExtension>): seq<string> {
    if x.None? then [] else [ShowInt(x.value.request)] + (if x.value.payload.None? then [] else [x.value.payload.value])
  }

  function Print(t: AddressText, m: MetaMessage): string { Join([ShowInt(RequestNumber(m))] + Fields(t, m)) }

  // Reading the request number.

  /** The digits at the start of a string, and where they end. */
  function DigitsLength(s: string): (n: nat)
    ensures n <= |s|
  {
    if s == "" || Digit(s[0], 10).None? then 0 else 1 + DigitsLength(s[1..])
  }

  function AsciiWhiteLength(s: string): (n: nat)
    ensures n <= |s|
  {
    if s == "" || !AsciiWhite(s[0]) then 0 else 1 + AsciiWhiteLength(s[1..])
  }

  function ValueOrZero(v: Option<nat>): nat { if v.Some? then v.value else 0 }

  function Clamped(n: int): int { if n < MIN_I32 then MIN_I32 else if n > MAX_I32 then MAX_I32 else n }

  /** A leading number as atoi reads it, and where it ends; a zero counts only when it is the first character. */
  function DispatchPrefix(s: string): Option<(int, nat)> {
    var start := AsciiWhiteLength(s);
    var signed := start < |s| && (s[start] == '-' || s[start] == '+');
    var first := if signed then start + 1 else start;
    var length := DigitsLength(s[first..]);
    var value := ValueOrZero(Digits(s[first..first + length], 10));
    var number := Clamped(if signed && s[start] == '-' then 0 - value as int else value);
    if number != 0 || (s != "" && s[0] == '0') then Some((number, first + length)) else None
  }

  method SkipWhite(input: string) returns (i: nat)
    ensures i == AsciiWhiteLength(input)
  {
    i := 0;
    assert input[0..] == input;
    while i < |input| && AsciiWhite(input[i])
      invariant i <= |input| && AsciiWhiteLength(input) == i + AsciiWhiteLength(input[i..])
    {
      assert input[i..][1..] == input[i + 1..];
      i := i + 1;
    }
  }

  method ReadDigits(input: string, first: nat) returns (i: nat, number: nat)
    requires first <= |input|
    ensures i == first + DigitsLength(input[first..]) && Digits(input[first..i], 10) == Some(number)
  {
    hide Digit;
    i, number := first, 0;
    assert input[first..first] == "";
    while i < |input| && Digit(input[i], 10).Some?
      invariant first <= i <= |input| && DigitsLength(input[first..]) == i - first + DigitsLength(input[i..])
      invariant Digits(input[first..i], 10) == Some(number)
    {
      assert input[i..][1..] == input[i + 1..];
      assert input[first..i + 1][..i - first] == input[first..i];
      number := number * 10 + Digit(input[i], 10).value;
      i := i + 1;
    }
  }

  method ReadDispatchPrefix(input: string) returns (r: Option<(int, nat)>)
    ensures r == DispatchPrefix(input)
  {
    hide Digit, Digits, DigitsLength, AsciiWhiteLength;
    var i := SkipWhite(input);
    var negative := i < |input| && input[i] == '-';
    if i < |input| && (input[i] == '-' || input[i] == '+') {
      i := i + 1;
    }
    var end, number := ReadDigits(input, i);
    var signed := Clamped(if negative then 0 - number as int else number);
    if signed != 0 || (input != "" && input[0] == '0') {
      return Some((signed, end));
    }
    r := None;
  }

  // Reading the fields.

  function Field(fs: seq<string>, i: nat, name: string): Parsed<string> {
    if i < |fs| then Ok(fs[i]) else Err(MissingField(name))
  }

  function IntField(fs: seq<string>, i: nat, name: string): Parsed<int> {
    var text :- Field(fs, i, name);
    var n := ParseI32(text);
    if n.None? then Err(InvalidInteger(name, text)) else Ok(n.value)
  }

  function NonceField(fs: seq<string>): Parsed<nat> {
    var text :- Field(fs, 0, "nonce");
    var n := ParseHex(text);
    if n.None? then Err(InvalidNonce(text)) else Ok(n.value)
  }

  function ValidName(text: string): Parsed<Name> {
    if CheckId(text) then Ok(Name(text)) else Err(InvalidName(text))
  }

  /** Both names, then both checks. */
  function NamePair(fs: seq<string>, i: nat): Parsed<(Name, Name)> {
    var from :- Field(fs, i, "from");
    var dest :- Field(fs, i + 1, "to");
    var a :- ValidName(from);
    var b :- ValidName(dest);
    Ok((a, b))
  }

  function EdgeNames(fs: seq<string>): Parsed<(Name, Name)> {
    var pair :- NamePair(fs, 1);
    if pair.0 == pair.1 then Err(SelfEdge(pair.0.text)) else Ok(pair)
  }

  function OptionalEndpoint(fs: seq<string>, i: nat, missing: string): Parsed<Option<Endpoint>> {
    if i + 1 < |fs| then Ok(Some(Endpoint(fs[i], fs[i + 1])))
    else if i < |fs| then Err(MissingField(missing))
    else Ok(None)
  }

  predicate IsSpecialId(name: string) { |name| > 1 && (name[0] == '^' || name[0] == '?') }

  function ParseVersion(text: string): Parsed<(int, Option<int>)> {
    var dot := SplitOnce(text, '.');
    var (major, minor) := if dot.None? then (text, None) else (dot.value.0, Some(dot.value.1));
    var a := ParseI32(major);
    if a.None? then Err(InvalidProtocolVersion(text))
    else if minor.None? then Ok((a.value, None))
    else
      var b := ParseI32(minor.value);
      if b.None? then Err(InvalidProtocolVersion(text)) else Ok((a.value, Some(b.value)))
  }

  function ParseId(fs: seq<string>): Parsed<MetaMessage> {
    var name :- Field(fs, 0, "name");
    var text :- Field(fs, 1, "version");
    var version :- ParseVersion(text);
    if IsSpecialId(name) || CheckId(name) then Ok(Id(name, version.0, version.1)) else Err(InvalidName(name))
  }

  function ParseMetaKey(fs: seq<string>): Parsed<MetaMessage> {
    var cipher :- IntField(fs, 0, "cipher");
    var digest :- IntField(fs, 1, "digest");
    var macLength :- IntField(fs, 2, "mac_length");
    var compression :- IntField(fs, 3, "compression");
    var key :- Field(fs, 4, "key");
    Ok(MetaKey(cipher, digest, macLength, compression, key))
  }

  function ParseAck(fs: seq<string>): Parsed<AckMessage> {
    if fs == [] then Err(MissingField("ack"))
    else if |fs| == 1 then Ok(Payload(fs[0]))
    else if |fs| == 2 then
      var (version, pid) := (ParseI32(fs[0]), ParseI32(fs[1]));
      Ok(if version.Some? && pid.Some? then Control(version.value, pid.value) else Payload(fs[0]))
    else
      var weight :- IntField(fs, 1, "weight");
      var options := ParseHex(fs[2]);
      if options.None? then Err(InvalidOptions(fs[2])) else Ok(Connection(fs[0], weight, options.value))
  }

  function ParseSubnetFields(t: AddressText, fs: seq<string>): Parsed<SubnetMessage> {
    var nonce :- NonceField(fs);
    var ownerText :- Field(fs, 1, "owner");
    var owner :- ValidName(ownerText);
    var text :- Field(fs, 2, "subnet");
    var subnet := ParseSubnet(t, text);
    if subnet.None? then Err(InvalidSubnet(text)) else Ok(SubnetMessage(nonce, owner, subnet.value))
  }

  /** A negative weight is refused here; the program itself accepts one. */
  function ParseAddEdge(fs: seq<string>): Parsed<AddEdgeMessage> {
    var nonce :- NonceField(fs);
    var pair :- EdgeNames(fs);
    var address :- Field(fs, 3, "address");
    var port :- Field(fs, 4, "port");
    var optionsText :- Field(fs, 5, "options");
    var weightText :- Field(fs, 6, "weight");
    var options := ParseHex(optionsText);
    if options.None? then Err(InvalidOptions(optionsText)) else
    var weight := ParseI32(weightText);
    if weight.None? || weight.value < 0 then Err(InvalidWeight(weightText)) else
    var local :- OptionalEndpoint(fs, 7, "local_port");
    Ok(AddEdgeMessage(nonce, Edge(pair.0, pair.1, None, None, options.value, weight.value), address, port, local))
  }

  function ParseDeleteEdge(fs: seq<string>): Parsed<DeleteEdgeMessage> {
    var nonce :- NonceField(fs);
    var pair :- EdgeNames(fs);
    Ok(DeleteEdgeMessage(nonce, pair.0, pair.1))
  }

  function ParseKeyChanged(fs: seq<string>): Parsed<MetaMessage> {
    var nonce :- NonceField(fs);
    var text :- Field(fs, 1, "origin");
    var origin :- ValidName(text);
    Ok(KeyChanged(nonce, origin))
  }

  /** An extension whose number cannot be read is no extension. */
  function ParseRequestKey(fs: seq<string>): Parsed<MetaMessage> {
    var pair :- NamePair(fs, 0);
    var request := if |fs| > 2 then ParseI32(fs[2]) else None;
    Ok(RequestKey(pair.0, pair.1,
                  if request.None? then None
                  else Some(RequestKeyExtension(request.value, if |fs| > 3 then Some(fs[3]) else None))))
  }

  function ParseAnswerKey(fs: seq<string>): Parsed<MetaMessage> {
    var pair :- NamePair(fs, 0);
    var key :- Field(fs, 2, "key");
    var cipher :- IntField(fs, 3, "cipher");
    var digest :- IntField(fs, 4, "digest");
    var macText :- Field(fs, 5, "mac_length");
    var macLength := ParseU64(macText);
    if macLength.None? then Err(InvalidInteger("mac_length", macText)) else
    var compression :- IntField(fs, 6, "compression");
    var address :- OptionalEndpoint(fs, 7, "port");
    Ok(AnswerKey(pair.0, pair.1, key, cipher, digest, macLength.value, compression, address))
  }

  function ParsePacketLength(fs: seq<string>): Parsed<nat> {
    var length :- IntField(fs, 0, "length");
    if 0 <= length <= MAX_PACKET then Ok(length) else Err(InvalidLength(length))
  }

  function ParseUdpInfo(fs: seq<string>): Parsed<MetaMessage> {
    var pair :- NamePair(fs, 0);
    var address :- Field(fs, 2, "address");
    var port :- Field(fs, 3, "port");
    Ok(UdpInfo(pair.0, pair.1, Endpoint(address, port)))
  }

  function ParseMtuInfo(fs: seq<string>): Parsed<MetaMessage> {
    var pair :- NamePair(fs, 0);
    var mtu :- IntField(fs, 2, "mtu");
    if mtu < MIN_MTU then Err(InvalidMtu(mtu))
    else Ok(MtuInfo(pair.0, pair.1, if mtu <= DEFAULT_MTU then mtu else DEFAULT_MTU))
  }

  function ParseFields(t: AddressText, request: int, fs: seq<string>): Parsed<MetaMessage> {
    if request == 0 then ParseId(fs)
    else if request == 1 then ParseMetaKey(fs)
    else if request == 2 then (var data :- Field(fs, 0, "challenge"); Ok(Challenge(data)))
    else if request == 3 then (var digest :- Field(fs, 0, "digest"); Ok(ChallengeReply(digest)))
    else if request == 4 then (var ack :- ParseAck(fs); Ok(Ack(ack)))
    else if request == 7 then Ok(TerminateRequest)
    else if request == 8 then Ok(Ping)
    else if request == 9 then Ok(Pong)
    else if request == 10 then (var s :- ParseSubnetFields(t, fs); Ok(AddSubnet(s)))
    else if request == 11 then (var s :- ParseSubnetFields(t, fs); Ok(DeleteSubnet(s)))
    else if request == 12 then (var e :- ParseAddEdge(fs); Ok(AddEdge(e)))
    else if request == 13 then (var e :- ParseDeleteEdge(fs); Ok(DeleteEdge(e)))
    else if request == 14 then ParseKeyChanged(fs)
    else if request == 15 then ParseRequestKey(fs)
    else if request == 16 then ParseAnswerKey(fs)
    else if request == 17 then (var length :- ParsePacketLength(fs); Ok(TcpPacket(length)))
    else if request == 21 then (var length :- ParsePacketLength(fs); Ok(SptpsTcpPacket(length)))
    else if request == 22 then ParseUdpInfo(fs)
    else if request == 23 then ParseMtuInfo(fs)
    else if 0 <= request < 24 then Err(UnsupportedRequest(request))
    else Err(UnknownRequest(request))
  }

  function Parse(t: AddressText, raw: string): Parsed<MetaMessage> {
    var prefix := DispatchPrefix(raw);
    if prefix.None? then Err(BogusData)
    else ParseFields(t, prefix.value.0, Split(AsciiTrimmed(raw[prefix.value.1..])))
  }

  // What is printed is read back.

  predicate I32(n: int) { MIN_I32 <= n <= MAX_I32 }

  predicate Endpointed(e: Option<Endpoint>) { e.Some? ==> IsWord(e.value.address) && IsWord(e.value.port) }

  predicate GoodNames(a: Name, b: Name) { CheckId(a.text) && CheckId(b.text) }

  /** Valid names, fields that are words, numbers in range, and nothing that the text has no place for. */
  ghost predicate Printable(t: AddressText, m: MetaMessage) {
    match m
    case Id(name, major, minor) => IsWord(name) && (IsSpecialId(name) || CheckId(name)) && minor.Some? && I32(major)
      && I32(minor.value)
    case MetaKey(cipher, digest, macLength, compression, key) => I32(cipher) && I32(digest) && I32(macLength)
      && I32(compression) && IsWord(key)
    case Challenge(data) => IsWord(data)
    case ChallengeReply(reply) => IsWord(reply)
    case Ack(Connection(port, weight, options)) => IsWord(port) && I32(weight) && options <= MAX_U32
    case Ack(Payload(text)) => IsWord(text)
    case Ack(Control(version, pid)) => I32(version) && I32(pid)
    case TerminateRequest => true
    case Ping => true
    case Pong => true
    case AddSubnet(s) => s.nonce <= MAX_U32 && CheckId(s.owner.text) && PrintableSubnet(t, s.subnet)
    case DeleteSubnet(s) => s.nonce <= MAX_U32 && CheckId(s.owner.text) && PrintableSubnet(t, s.subnet)
    case AddEdge(e) =>
      && e.nonce <= MAX_U32 && GoodNames(e.edge.from, e.edge.to) && e.edge.from != e.edge.to && IsWord(e.address)
      && IsWord(e.port)
      && e.edge.options <= MAX_U32 && e.edge.weight <= MAX_I32 && e.edge.address == None && e.edge.localAddress == None
      && Endpointed(e.local)
    case DeleteEdge(e) => e.nonce <= MAX_U32 && GoodNames(e.from, e.to) && e.from != e.to
    case KeyChanged(nonce, origin) => nonce <= MAX_U32 && CheckId(origin.text)
    case RequestKey(from, dest, x) =>
      && GoodNames(from, dest)
      && (x.Some? ==> I32(x.value.request) && (x.value.payload.Some? ==> IsWord(x.value.payload.value)))
    case AnswerKey(from, dest, key, cipher, digest, macLength, compression, address) =>
      GoodNames(from, dest) && IsWord(key) && I32(cipher) && I32(digest) && macLength <= MAX_U64 && I32(compression)
        && Endpointed(address)
    case TcpPacket(length) => length <= MAX_PACKET
    case SptpsTcpPacket(length) => length <= MAX_PACKET
    case UdpInfo(from, dest, e) => GoodNames(from, dest) && IsWord(e.address) && IsWord(e.port)
    case MtuInfo(from, dest, mtu) => GoodNames(from, dest) && MIN_MTU <= mtu <= DEFAULT_MTU
  }

  lemma NameIsWord(id: string)
    requires CheckId(id)
    ensures IsWord(id)
  {
  }

  lemma VersionReturns(major: int, minor: int)
    requires I32(major) && I32(minor)
    ensures ParseVersion(ShowInt(major) + "." + ShowInt(minor)) == Ok((major, Some(minor)))
    ensures IsWord(ShowInt(major) + "." + ShowInt(minor))
  {
    hide ShowInt, White;
    ShowIntIsWord(major);
    ShowIntIsWord(minor);
    PlainMarks();
    SplitAt(ShowInt(major), '.', ShowInt(minor));
    assert ShowInt(major) + "." + ShowInt(minor) == ShowInt(major) + ['.'] + ShowInt(minor);
    IntReturns(major, MIN_I32, MAX_I32);
    IntReturns(minor, MIN_I32, MAX_I32);
  }

  lemma I32Returns(n: int)
    requires I32(n)
    ensures ParseI32(ShowInt(n)) == Some(n) && IsWord(ShowInt(n))
  {
    hide ShowInt, ParseInt;
    IntReturns(n, MIN_I32, MAX_I32);
    ShowIntIsWord(n);
  }

  lemma HexFieldReturns(n: nat)
    requires n <= MAX_U32
    ensures ParseHex(Hex(n)) == Some(n) && IsWord(Hex(n))
  {
    HexReturns(n);
    ShowIsWord(n, 16);
  }

  lemma EndpointReturns(before: seq<string>, e: Option<Endpoint>, missing: string)
    requires Endpointed(e)
    ensures OptionalEndpoint(before + EndpointFields(e), |before|, missing) == Ok(e) && AllWords(EndpointFields(e))
  {
  }

  /** The messages made of plain words and numbers. */
  lemma SimpleFieldsReturn(t: AddressText, m: MetaMessage)
    requires Printable(t, m) && (m.Id? || m.MetaKey? || m.Challenge? || m.ChallengeReply? || m.Ack?
             || m.TerminateRequest? || m.Ping? || m.Pong?)
    ensures ParseFields(t, RequestNumber(m), Fields(t, m)) == Ok(m) && AllWords(Fields(t, m))
  {
    hide ShowInt, Show, ParseI32, ParseHex, IsWord, ParseVersion, CheckId;
    match m
    case Id(name, major, minor) => VersionReturns(major, minor.value);
    case MetaKey(cipher, digest, macLength, compression, key) => {
      I32Returns(cipher);
      I32Returns(digest);
      I32Returns(macLength);
      I32Returns(compression);
    }
    case Ack(Connection(port, weight, options)) => {
      I32Returns(weight);
      HexFieldReturns(options);
    }
    case Ack(Control(version, pid)) => {
      I32Returns(version);
      I32Returns(pid);
    }
    case _ =>
  }

  lemma SubnetFieldsReturn(t: AddressText, m: MetaMessage)
    requires Printable(t, m) && (m.AddSubnet? || m.DeleteSubnet?)
    ensures ParseFields(t, RequestNumber(m), Fields(t, m)) == Ok(m) && AllWords(Fields(t, m))
  {
    hide Show, ParseHex, IsWord, CheckId, ShowSubnet, ParseSubnet, PrintableSubnet;
    var s := if m.AddSubnet? then m.added else m.deleted;
    HexFieldReturns(s.nonce);
    SubnetReturns(t, s.subnet);
    NameIsWord(s.owner.text);
  }

  lemma EdgeFieldsReturn(t: AddressText, m: MetaMessage)
    requires Printable(t, m) && (m.AddEdge? || m.DeleteEdge? || m.KeyChanged?)
    ensures ParseFields(t, RequestNumber(m), Fields(t, m)) == Ok(m) && AllWords(Fields(t, m))
  {
    hide Show, ShowInt, ParseHex, ParseI32, IsWord, CheckId;
    match m
    case AddEdge(e) => {
      HexFieldReturns(e.nonce);
      HexFieldReturns(e.edge.options);
      I32Returns(e.edge.weight);
      NameIsWord(e.edge.from.text);
      NameIsWord(e.edge.to.text);
      var before := Fields(t, AddEdge(e.(local := None)));
      EndpointReturns(before, e.local, "local_port");
      assert before + [] == before && Fields(t, m) == before + EndpointFields(e.local);
    }
    case DeleteEdge(e) => {
      HexFieldReturns(e.nonce);
      NameIsWord(e.from.text);
      NameIsWord(e.to.text);
    }
    case KeyChanged(nonce, origin) => {
      HexFieldReturns(nonce);
      NameIsWord(origin.text);
    }
  }

  lemma KeyFieldsReturn(t: AddressText, m: MetaMessage)
    requires Printable(t, m) && (m.RequestKey? || m.AnswerKey?)
    ensures ParseFields(t, RequestNumber(m), Fields(t, m)) == Ok(m) && AllWords(Fields(t, m))
  {
    hide Show, ShowInt, ParseI32, ParseU64, IsWord, CheckId;
    match m
    case RequestKey(from, dest, x) => {
      NameIsWord(from.text);
      NameIsWord(dest.text);
      if x.Some? { I32Returns(x.value.request); }
    }
    case AnswerKey(from, dest, key, cipher, digest, macLength, compression, address) => {
      NameIsWord(from.text);
      NameIsWord(dest.text);
      I32Returns(cipher);
      I32Returns(digest);
      I32Returns(compression);
      U64Returns(macLength);
      ShowIntIsWord(macLength);
      var before := Fields(t, AnswerKey(from, dest, key, cipher, digest, macLength, compression, None));
      EndpointReturns(before, address, "port");
      assert before + [] == before && Fields(t, m) == before + EndpointFields(address);
    }
  }

  lemma InfoFieldsReturn(t: AddressText, m: MetaMessage)
    requires Printable(t, m) && (m.TcpPacket? || m.SptpsTcpPacket? || m.UdpInfo? || m.MtuInfo?)
    ensures ParseFields(t, RequestNumber(m), Fields(t, m)) == Ok(m) && AllWords(Fields(t, m))
  {
    hide Show, ShowInt, ParseI32, IsWord, CheckId;
    match m
    case TcpPacket(length) => I32Returns(length);
    case SptpsTcpPacket(length) => I32Returns(length);
    case UdpInfo(from, dest, e) => {
      NameIsWord(from.text);
      NameIsWord(dest.text);
    }
    case MtuInfo(from, dest, mtu) => {
      NameIsWord(from.text);
      NameIsWord(dest.text);
      I32Returns(mtu);
    }
  }

  lemma FieldsReturn(t: AddressText, m: MetaMessage)
    requires Printable(t, m)
    ensures ParseFields(t, RequestNumber(m), Fields(t, m)) == Ok(m) && AllWords(Fields(t, m))
  {
    hide ParseFields, Fields, Printable, RequestNumber;
    if m.AddSubnet? || m.DeleteSubnet? {
      SubnetFieldsReturn(t, m);
    } else if m.AddEdge? || m.DeleteEdge? || m.KeyChanged? {
      EdgeFieldsReturn(t, m);
    } else if m.RequestKey? || m.AnswerKey? {
      KeyFieldsReturn(t, m);
    } else if m.TcpPacket? || m.SptpsTcpPacket? || m.UdpInfo? || m.MtuInfo? {
      InfoFieldsReturn(t, m);
    } else {
      SimpleFieldsReturn(t, m);
    }
  }

  lemma {:induction false} DigitsEnd(d: string, rest: string)
    requires forall i :: 0 <= i < |d| ==> Digit(d[i], 10).Some?
    requires rest == "" || Digit(rest[0], 10).None?
    ensures DigitsLength(d + rest) == |d|
  {
    if d == "" {
      assert d + rest == rest;
    } else {
      assert (d + rest)[1..] == d[1..] + rest;
      DigitsEnd(d[1..], rest);
    }
  }

  /** The request number is read off the front of the line. */
  lemma PrefixReturns(n: nat, rest: string)
    requires n < 24 && (rest == "" || rest[0] == ' ')
    ensures DispatchPrefix(ShowInt(n) + rest) == Some((n, |ShowInt(n)|))
  {
    hide Show, Digits, Digit;
    var d := Show(n, 10);
    var s := d + rest;
    ShowReturns(n, 10);
    ShowIsDigits(n, 10);
    SpaceIsNoDigit();
    DigitsEnd(d, rest);
    ZeroShown(n);
    FirstIsPlain(d[0]);
    assert s[0] == d[0] && AsciiWhiteLength(s) == 0;
    assert s[0..] == s && s[0..0 + |d|] == d;
  }

  lemma SpaceIsNoDigit()
    ensures Digit(' ', 10).None?
  {
  }

  lemma ZeroShown(n: nat)
    ensures n == 0 ==> Show(n, 10)[0] == '0'
  {
  }

  lemma FirstIsPlain(c: char)
    requires Digit(c, 10).Some?
    ensures !AsciiWhite(c) && c != '-' && c != '+'
  {
  }

  lemma {:induction false} TrimmedSplits(s: string)
    ensures Split(AsciiTrimmed(s)) == Split(s)
    decreases |s|
  {
    hide Split;
    if s == "" || !AsciiWhite(s[0]) {
    } else {
      TrimmedSplits(s[1..]);
      SplitDropsWhite(s);
    }
  }

  lemma SplitDropsWhite(s: string)
    requires s != "" && AsciiWhite(s[0])
    ensures Split(s) == Split(s[1..])
  {
    assert White(s[0]);
    assert s[WhiteLength(s)..] == s[1..][WhiteLength(s[1..])..];
  }

  /** A printed line is parsed from its fields that are not empty. */
  lemma PrintedIsSplit(t: AddressText, m: MetaMessage)
    requires AllWords(NonEmpty(Fields(t, m)))
    ensures Parse(t, Print(t, m)) == ParseFields(t, RequestNumber(m), NonEmpty(Fields(t, m)))
  {
    hide ParseFields, Fields, ShowInt, DispatchPrefix, Split, Join, AsciiTrimmed, NonEmpty, AllWords;
    var n, fs := RequestNumber(m), Fields(t, m);
    JoinHead(ShowInt(n), fs);
    var rest := if fs == [] then "" else " " + Join(fs);
    PrefixReturns(n, rest);
    var raw := Print(t, m);
    assert raw == ShowInt(n) + rest && raw[|ShowInt(n)|..] == rest;
    TrimmedSplits(rest);
    SplitJoin(fs);
    if fs == [] {
      NothingJoined();
    } else {
      SplitSpace(Join(fs));
    }
  }

  lemma NothingJoined()
    ensures Join([]) == ""
  {
  }

  /** Printing a message and parsing the line gives the message back. */
  lemma PrintingReturns(t: AddressText, m: MetaMessage)
    requires Printable(t, m)
    ensures Parse(t, Print(t, m)) == Ok(m)
  {
    hide ParseFields, Fields, Printable, Parse, Print;
    FieldsReturn(t, m);
    WordsAreKept(Fields(t, m));
    PrintedIsSplit(t, m);
  }

  lemma JoinHead(head: string, fs: seq<string>)
    ensures Join([head] + fs) == head + if fs == [] then "" else " " + Join(fs)
  {
    if fs != [] { assert ([head] + fs)[1..] == fs; }
  }

  // SPTPS data inside key messages.

  datatype SptpsKeyKind = InitialRequest | HandshakeAnswer | TcpRelay

  datatype SptpsKeyPayload =
    SptpsKeyPayload(from: Name, dest: Name, kind: SptpsKeyKind, data: seq<byte>, compression: Option<int>,
                                             address: Option<Endpoint>)

  datatype SptpsKeyError = NotSptps | MissingPayload | InvalidBase64

  const REQ_KEY := 15
  const SPTPS_PACKET := 21

  function SptpsRequest(from: Name, dest: Name, request: int, data: seq<byte>): MetaMessage {
    RequestKey(from, dest, Some(RequestKeyExtension(request, Some(Base64.Encode(data, false)))))
  }

  function SptpsAnswer(from: Name, dest: Name, data: seq<byte>, compression: int,
      address: Option<Endpoint>): MetaMessage {
    AnswerKey(from, dest, Base64.Encode(data, false), -1, -1, MAX_U64, compression, address)
  }

  function DecodeRequest(from: Name, dest: Name,
      x: Option<RequestKeyExtension>): Result<SptpsKeyPayload, SptpsKeyError> {
    if x.None? || (x.value.request != REQ_KEY && x.value.request != SPTPS_PACKET) then Err(NotSptps)
    else if x.value.payload.None? then Err(MissingPayload)
    else
      var data := Base64.Decode(x.value.payload.value);
      if data.None? then Err(InvalidBase64)
      else Ok(SptpsKeyPayload(from, dest, if x.value.request == REQ_KEY then InitialRequest else TcpRelay, data.value,
        None, None))
  }

  /** The SPTPS data of a key message. */
  function DecodePayload(m: MetaMessage): Result<SptpsKeyPayload, SptpsKeyError> {
    match m
    case RequestKey(from, dest, x) => DecodeRequest(from, dest, x)
    case AnswerKey(from, dest, key, cipher, digest, macLength, compression, address) =>
      if cipher != -1 || digest != -1 || macLength != MAX_U64 then Err(NotSptps)
      else
        var data := Base64.Decode(key);
        if data.None? then Err(InvalidBase64)
        else Ok(SptpsKeyPayload(from, dest, HandshakeAnswer, data.value, Some(compression), address))
    case _ => Err(NotSptps)
  }

  lemma EncodingIsWord(data: seq<byte>)
    requires data != []
    ensures IsWord(Base64.Encode(data, false))
  {
    var text := Base64.Encode(data, false);
    Base64.EncodingReturns(data, false);
    Base64.EncodingIsSymbols(data, false);
    forall i | 0 <= i < |text| ensures !White(text[i]) { assert text[i] in text; SymbolIsPlain(text[i]); }
  }

  lemma SymbolIsPlain(c: char)
    requires Base64.IsSymbol(c)
    ensures !White(c)
  {
  }

  /** SPTPS data put into a key message is what the receiver decodes from the line it gets. */
  lemma PayloadReturns(t: AddressText, from: Name, dest: Name, data: seq<byte>, request: int, compression: int,
      address: Option<Endpoint>)
    requires GoodNames(from, dest) && data != [] && (request == REQ_KEY || request == SPTPS_PACKET)
    requires I32(compression) && Endpointed(address)
    ensures var r := Parse(t, Print(t, SptpsRequest(from, dest, request, data)));
            && r.Ok?
            && DecodePayload(r.value)
                 == Ok(SptpsKeyPayload(from, dest, if request == REQ_KEY then InitialRequest else TcpRelay, data, None,
                   None))
    ensures var r := Parse(t, Print(t, SptpsAnswer(from, dest, data, compression, address)));
            && r.Ok?
            && DecodePayload(r.value)
              == Ok(SptpsKeyPayload(from, dest, HandshakeAnswer, data, Some(compression), address))
  {
    hide Parse, Print, IsWord, CheckId;
    EncodingIsWord(data);
    Base64.EncodingReturns(data, false);
    PrintingReturns(t, SptpsRequest(from, dest, request, data));
    PrintingReturns(t, SptpsAnswer(from, dest, data, compression, address));
  }

  /** Empty data leaves an empty field, which the line loses: the request comes without a payload, and the fields of the
      answer move up until one is not the number it should be. */
  lemma EmptyPayloadIsLost(t: AddressText, from: Name, dest: Name, request: int, compression: int,
      address: Option<Endpoint>)
    requires GoodNames(from, dest) && (request == REQ_KEY || request == SPTPS_PACKET) && I32(compression)
             && Endpointed(address)
    ensures var r := Parse(t, Print(t, SptpsRequest(from, dest, request, [])));
              r.Ok? && DecodePayload(r.value) == Err(MissingPayload)
    ensures Parse(t, Print(t, SptpsAnswer(from, dest, [], compression, address))).Err?
  {
    hide Parse, Print, CheckId, ShowInt, ParseI32, IsWord, NonEmpty;
    EmptyRequest(t, from, dest, request);
    EmptyAnswer(t, from, dest, compression, address);
  }

  lemma EmptyRequest(t: AddressText, from: Name, dest: Name, request: int)
    requires GoodNames(from, dest) && (request == REQ_KEY || request == SPTPS_PACKET)
    ensures Parse(t, Print(t, SptpsRequest(from, dest, request, [])))
              == Ok(RequestKey(from, dest, Some(RequestKeyExtension(request, None))))
  {
    hide Parse, Print, CheckId, ShowInt, ParseI32, IsWord;
    NameIsWord(from.text);
    NameIsWord(dest.text);
    I32Returns(request);
    NotEmptyWord(from.text);
    NotEmptyWord(dest.text);
    NotEmptyWord(ShowInt(request));
    var m, kept := SptpsRequest(from, dest, request, []), [from.text, dest.text, ShowInt(request)];
    assert Fields(t, m) == kept + [""] + [] && kept + [] == kept;
    DroppedField(kept, []);
    PrintedIsSplit(t, m);
  }

  lemma EmptyAnswer(t: AddressText, from: Name, dest: Name, compression: int, address: Option<Endpoint>)
    requires GoodNames(from, dest) && I32(compression) && Endpointed(address)
    ensures Parse(t, Print(t, SptpsAnswer(from, dest, [], compression, address))).Err?
  {
    hide Parse, Print, CheckId, ShowInt, ParseI32, IsWord;
    NameIsWord(from.text);
    NameIsWord(dest.text);
    I32Returns(-1);
    I32Returns(compression);
    ShowIntIsWord(MAX_U64);
    MaximumIsTooLarge();
    var m := SptpsAnswer(from, dest, [], compression, address);
    var before, after := [from.text, dest.text],
      [ShowInt(-1), ShowInt(-1), ShowInt(MAX_U64), ShowInt(compression)] + EndpointFields(address);
    assert Fields(t, m) == before + [""] + after;
    EndpointReturns([], address, "port");
    DroppedField(before, after);
    PrintedIsSplit(t, m);
    assert ParseFields(t, 16, before + after).Err? by {
      assert IntField(before + after, 4, "digest").Err?;
    }
  }

  lemma MaximumIsTooLarge()
    ensures ParseI32(ShowInt(MAX_U64)) == None
  {
    hide Show, Digits;
    ShowReturns(MAX_U64, 10);
    ShowIsWord(MAX_U64, 10);
  }

  lemma NotEmptyWord(w: string)
    requires IsWord(w)
    ensures w != ""
  {
  }

  lemma {:induction false} DroppedField(before: seq<string>, after: seq<string>)
    requires AllWords(before) && AllWords(after)
    ensures NonEmpty(before + [""] + after) == before + after && AllWords(before + after)
  {
    if before == [] {
      assert [] + [""] + after == [""] + after && ([""] + after)[1..] == after && [] + after == after;
      WordsAreKept(after);
    } else {
      assert IsWord(before[0]);
      DroppedField(before[1..], after);
      assert (before + [""] + after)[1..] == before[1..] + [""] + after;
      assert before + after == [before[0]] + (before[1..] + after);
    }
  }
}
