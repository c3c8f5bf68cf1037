/**
 The SOCKS5 wire codec (src/protocol/socks5.rs): method offers, CONNECT and UDP ASSOCIATE requests
 and UDP datagram headers, after sections 3, 4, 5 and 7 of RFC 1928.

 `Decode` and `Encode` say what each message is; the methods read through a cursor and write into
 buffers the way the codec does.
 */
module Socks5 {
  import opened Words
  import opened Wrappers
  import opened ByteStrings

  const VERSION: Byte := 5
  const NO_AUTHENTICATION: Byte := 0
  const CONNECT: Byte := 1
  const UDP_ASSOCIATE: Byte := 3
  const ADDRESS_IPV4: Byte := 1
  const ADDRESS_DOMAIN: Byte := 3
  const ADDRESS_IPV6: Byte := 4

  /** The longest request, with a 255-byte domain; UDP headers have the same limit. */
  const MAX_REQUEST: nat := 4 + 1 + 255 + 2
  const MAX_METHOD_OFFER: nat := 2 + 255

  type Octets4 = b: Bytes | |b| == 4 witness [0, 0, 0, 0]
  type Octets16 = b: Bytes | |b| == 16 witness [0, 0, 0, 0, 0, 0, 0, 0, 0, 0, 0, 0, 0, 0, 0, 0]
  type Port = p: nat | p < 65536

  datatype Address = Ipv4(v4: Octets4) | Domain(name: Bytes) | Ipv6(v6: Octets16)
  datatype Destination = Destination(address: Address, port: Port)

  datatype DecodeError =
    | IncompleteInput(field: string, needed: nat, available: nat)
    | InvalidVersion(version: Byte)
    | InvalidMethodCount
    | UnsupportedMethod
    | UnsupportedCommand(command: Byte)
    | InvalidReservedField(reserved: Byte)
    | UnsupportedAddressType(kind: Byte)
    | EmptyDomain
    | ZeroPort
    | InvalidDomainName
    | FragmentedUdp(fragment: Byte)

  datatype EncodeError = OutputTooSmall(required: nat, available: nat) | NoPort | BadDomain

  predicate IsDomainByte(b: Byte) {
    48 <= b <= 57 || 65 <= b <= 90 || 97 <= b <= 122 || b == 45 || b == 46 || b == 95
  }

  predicate IsDomainName(name: Bytes) {
    0 < |name| <= 255 && forall i :: 0 <= i < |name| ==> IsDomainByte(name[i])
  }

  predicate WellNamed(destination: Destination) {
    destination.address.Domain? ==> IsDomainName(destination.address.name)
  }

  /** The three messages that carry a destination: they differ in the three bytes before it. */
  datatype Message = ConnectRequest | AssociateRequest | Datagram

  /** Only an association request may leave the port open. */
  predicate Carries(m: Message, destination: Destination) {
    WellNamed(destination) && (m != AssociateRequest ==> destination.port != 0)
  }

  // ---- Reading ----

  function Missing(input: Bytes, cursor: nat, length: nat, field: string): DecodeError {
    IncompleteInput(field, length, SatSub(|input|, cursor))
  }

  function Slice(input: Bytes, cursor: nat, length: nat): (bytes: Bytes)
    requires cursor + length <= |input|
    ensures |bytes| == length
  {
    input[cursor..cursor + length]
  }

  function AddressFrom(input: Bytes, cursor: nat): (r: Result<Parsed<Address>, DecodeError>)
    ensures r.Ok? ==> cursor < r.value.next <= |input|
  {
    if cursor >= |input| then Err(Missing(input, cursor, 1, "address type"))
    else if input[cursor] == ADDRESS_IPV4 then
      if cursor + 5 > |input| then Err(Missing(input, cursor + 1, 4, "IPv4 address"))
      else Ok(Parsed(Ipv4(Slice(input, cursor + 1, 4)), cursor + 5))
    else if input[cursor] == ADDRESS_DOMAIN then DomainFrom(input, cursor + 1)
    else if input[cursor] == ADDRESS_IPV6 then
      if cursor + 17 > |input| then Err(Missing(input, cursor + 1, 16, "IPv6 address"))
      else Ok(Parsed(Ipv6(Slice(input, cursor + 1, 16)), cursor + 17))
    else Err(UnsupportedAddressType(input[cursor]))
  }

  function DomainFrom(input: Bytes, cursor: nat): (r: Result<Parsed<Address>, DecodeError>)
    ensures r.Ok? ==> cursor < r.value.next <= |input|
  {
    if cursor >= |input| then Err(Missing(input, cursor, 1, "domain length"))
    else if input[cursor] == 0 then Err(EmptyDomain)
    else if cursor + 1 + input[cursor] > |input| then Err(Missing(input, cursor + 1, input[cursor], "domain name"))
    else
      var name := Slice(input, cursor + 1, input[cursor]);
      if IsDomainName(name) then Ok(Parsed(Domain(name), cursor + 1 + input[cursor])) else Err(InvalidDomainName)
  }

  function PortOf(high: Byte, low: Byte): (port: Port)
    ensures PortBytes(port) == [high, low]
  {
    var h: int, l: int := high, low;
    256 * h + l
  }

  function DestinationFrom(input: Bytes, cursor: nat): (r: Result<Parsed<Destination>, DecodeError>)
    ensures r.Ok? ==> cursor < r.value.next <= |input|
  {
    match AddressFrom(input, cursor)
    case Err(e) => Err(e)
    case Ok(a) =>
      if a.next + 2 > |input| then Err(Missing(input, a.next, 2, "destination port"))
      else Ok(Parsed(Destination(a.item, PortOf(input[a.next], input[a.next + 1])), a.next + 2))
  }

  function Command(m: Message): Byte { if m == ConnectRequest then CONNECT else UDP_ASSOCIATE }

  /** The error, if any, in the three bytes before the destination. */
  function PreludeError(m: Message, input: Bytes): Option<DecodeError> {
    if m == Datagram then
      if |input| < 2 then Some(Missing(input, 0, 2, "UDP reserved"))
      else if |input| < 3 then Some(Missing(input, 2, 1, "UDP fragment"))
      else if input[2] != 0 then Some(FragmentedUdp(input[2]))
      else None
    else
      if |input| < 1 then Some(Missing(input, 0, 1, "version"))
      else if input[0] != VERSION then Some(InvalidVersion(input[0]))
      else if |input| < 2 then Some(Missing(input, 1, 1, "command"))
      else if input[1] != Command(m) then Some(UnsupportedCommand(input[1]))
      else if |input| < 3 then Some(Missing(input, 2, 1, "reserved field"))
      else if input[2] != 0 then Some(InvalidReservedField(input[2]))
      else None
  }

  function Decode(m: Message, input: Bytes): (r: Result<Parsed<Destination>, DecodeError>)
    ensures r.Ok? ==> 3 < r.value.next <= |input|
  {
    match PreludeError(m, input)
    case Some(e) => Err(e)
    case None =>
      match DestinationFrom(input, 3)
      case Err(e) => Err(e)
      case Ok(d) => if d.item.port == 0 && m != AssociateRequest then Err(ZeroPort) else Ok(d)
  }

  predicate Incomplete<T>(r: Result<T, DecodeError>) { r.Err? && r.error.IncompleteInput? }

  // ---- Writing ----

  function PortBytes(port: Port): Bytes { [port / 256, port % 256] }

  function AddressBytes(address: Address): Bytes
    requires address.Domain? ==> |address.name| <= 255
  {
    match address
    case Ipv4(octets) => [ADDRESS_IPV4] + octets
    case Domain(name) => [ADDRESS_DOMAIN, |name|] + name
    case Ipv6(octets) => [ADDRESS_IPV6] + octets
  }

  function Prelude(m: Message): Bytes {
    if m == Datagram then [0, 0, 0] else [VERSION, Command(m), 0]
  }

  function Encode(m: Message, destination: Destination): Bytes
    requires WellNamed(destination)
  {
    Prelude(m) + AddressBytes(destination.address) + PortBytes(destination.port)
  }

  function HeaderLength(destination: Destination): nat {
    match destination.address
    case Ipv4(_) => 4 + 4 + 2
    case Ipv6(_) => 4 + 16 + 2
    case Domain(name) => 4 + 1 + |name| + 2
  }

  // ---- The bytes on the wire ----

  /** Letters, digits, hyphen, full stop and underscore. */
  predicate IsNameChar(c: char) {
    'a' <= c <= 'z' || 'A' <= c <= 'Z' || '0' <= c <= '9' || c == '-' || c == '.' || c == '_'
  }

  /** A domain name is 1 to 255 of those. */
  lemma DomainNamesExactly(name: Bytes)
    ensures IsDomainName(name) <==>
            1 <= |name| <= 255 && forall i :: 0 <= i < |name| ==> IsNameChar(name[i] as char)
  {
    forall i | 0 <= i < |name|
      ensures IsDomainByte(name[i]) <==> IsNameChar(name[i] as char)
    {
    }
  }

  /** The layout of sections 4, 5 and 7 of RFC 1928, byte for byte. */
  lemma WireLayout(m: Message, destination: Destination)
    requires WellNamed(destination)
    ensures Encode(m, destination) ==
            (match m case ConnectRequest => [5, 1, 0] case AssociateRequest => [5, 3, 0] case Datagram => [0, 0, 0])
            + (match destination.address
               case Ipv4(octets) => [1] + octets
               case Domain(name) => [3, |name|] + name
               case Ipv6(octets) => [4] + octets)
            + [destination.port / 256, destination.port % 256]
  {
  }

  // ---- More input never changes a decision ----

  lemma SliceStable(input: Bytes, more: Bytes, cursor: nat, length: nat)
    requires cursor + length <= |input|
    ensures Slice(input + more, cursor, length) == Slice(input, cursor, length)
  {
  }

  lemma AddressStable(input: Bytes, more: Bytes, cursor: nat)
    requires !Incomplete(AddressFrom(input, cursor))
    ensures AddressFrom(input + more, cursor) == AddressFrom(input, cursor)
  {
    if cursor < |input| {
      if input[cursor] == ADDRESS_IPV4 {
        SliceStable(input, more, cursor + 1, 4);
      } else if input[cursor] == ADDRESS_DOMAIN {
        DomainStable(input, more, cursor + 1);
      } else if input[cursor] == ADDRESS_IPV6 {
        SliceStable(input, more, cursor + 1, 16);
      }
    }
  }

  lemma DomainStable(input: Bytes, more: Bytes, cursor: nat)
    requires !Incomplete(DomainFrom(input, cursor))
    ensures DomainFrom(input + more, cursor) == DomainFrom(input, cursor)
  {
    if cursor < |input| && cursor + 1 + input[cursor] <= |input| {
      SliceStable(input, more, cursor + 1, input[cursor]);
    }
  }

  lemma DestinationStable(input: Bytes, more: Bytes, cursor: nat)
    requires !Incomplete(DestinationFrom(input, cursor))
    ensures DestinationFrom(input + more, cursor) == DestinationFrom(input, cursor)
  {
    AddressStable(input, more, cursor);
  }

  /** A success or a definite error stays the same whatever follows. */
  lemma DecodeStable(m: Message, input: Bytes, more: Bytes)
    requires !Incomplete(Decode(m, input))
    ensures Decode(m, input + more) == Decode(m, input)
  {
    if PreludeError(m, input).None? {
      DestinationStable(input, more, 3);
    }
  }

  /** Incomplete input is shorter than the longest header: a full buffer is always decided. */
  lemma IncompleteIsShort(m: Message, input: Bytes)
    requires Incomplete(Decode(m, input))
    ensures |input| < 262
  {
  }

  /** Every proper prefix of an accepted header is incomplete, never accepted and never refused. */
  lemma PrefixIsIncomplete(m: Message, input: Bytes, k: nat)
    requires Decode(m, input).Ok? && k < Decode(m, input).value.next
    ensures Incomplete(Decode(m, input[..k]))
  {
    if !Incomplete(Decode(m, input[..k])) {
      assert input[..k] + input[k..] == input;
      DecodeStable(m, input[..k], input[k..]);
    }
  }

  // ---- How much is missing ----

  /** The parse lacks bytes of `field`: it has fewer than it needs, and any `more` that is too little is counted. */
  predicate Lacks<T(==)>(now: Result<T, DecodeError>, later: Result<T, DecodeError>, more: Bytes) {
    && Incomplete(now) && now.error.available < now.error.needed
    && (now.error.available + |more| < now.error.needed ==>
          later == Err(IncompleteInput(now.error.field, now.error.needed, now.error.available + |more|)))
  }

  lemma DomainLacks(input: Bytes, more: Bytes, cursor: nat)
    requires cursor <= |input| && Incomplete(DomainFrom(input, cursor))
    ensures Lacks(DomainFrom(input, cursor), DomainFrom(input + more, cursor), more)
  {
  }

  lemma AddressLacks(input: Bytes, more: Bytes, cursor: nat)
    requires cursor <= |input| && Incomplete(AddressFrom(input, cursor))
    ensures Lacks(AddressFrom(input, cursor), AddressFrom(input + more, cursor), more)
  {
    if cursor < |input| && input[cursor] == ADDRESS_DOMAIN {
      DomainLacks(input, more, cursor + 1);
    }
  }

  lemma DestinationLacks(input: Bytes, more: Bytes, cursor: nat)
    requires cursor <= |input| && Incomplete(DestinationFrom(input, cursor))
    ensures Lacks(DestinationFrom(input, cursor), DestinationFrom(input + more, cursor), more)
  {
    if Incomplete(AddressFrom(input, cursor)) {
      AddressLacks(input, more, cursor);
    } else {
      AddressStable(input, more, cursor);
    }
  }

  /** An incomplete input reports how many bytes its next field has and needs: it has fewer, and as long as too
      few arrive the report only counts them. */
  lemma ShortfallIsExact(m: Message, input: Bytes, more: Bytes)
    requires Incomplete(Decode(m, input))
    ensures Lacks(Decode(m, input), Decode(m, input + more), more)
  {
    if PreludeError(m, input).None? {
      DestinationLacks(input, more, 3);
    }
  }

  // ---- What is refused ----

  /** A request is refused for its first bad byte: version, command, reserved byte, address type. */
  lemma BadRequests(m: Message, input: Bytes)
    requires m != Datagram
    ensures |input| >= 1 && input[0] != 5 ==> Decode(m, input) == Err(InvalidVersion(input[0]))
    ensures |input| >= 2 && input[0] == 5 && input[1] != (if m == ConnectRequest then 1 else 3) ==>
              Decode(m, input) == Err(UnsupportedCommand(input[1]))
    ensures |input| >= 3 && input[..2] == [5, if m == ConnectRequest then 1 else 3] && input[2] != 0 ==>
              Decode(m, input) == Err(InvalidReservedField(input[2]))
    ensures |input| >= 4 && input[..3] == [5, if m == ConnectRequest then 1 else 3, 0] && input[3] !in {1, 3, 4} ==>
              Decode(m, input) == Err(UnsupportedAddressType(input[3]))
  {
    if |input| >= 3 {
      assert input[..2][0] == input[0] && input[..2][1] == input[1];
      assert input[..3][0] == input[0] && input[..3][1] == input[1] && input[..3][2] == input[2];
    }
  }

  /** A datagram is refused for a fragment number or an unknown address type, whatever its reserved bytes. */
  lemma BadDatagrams(input: Bytes)
    ensures |input| >= 3 && input[2] != 0 ==> Decode(Datagram, input) == Err(FragmentedUdp(input[2]))
    ensures |input| >= 4 && input[2] == 0 && input[3] !in {1, 3, 4} ==>
              Decode(Datagram, input) == Err(UnsupportedAddressType(input[3]))
  {
  }

  /** Behind a good prelude, a domain of no bytes or of other bytes than a name's is refused, and so is port 0
      unless it is left open by an association. */
  lemma BadDestinations(m: Message, input: Bytes, name: Bytes, rest: Bytes)
    requires |name| <= 255
    ensures var named := Prelude(m) + [3, |name|] + name + rest;
            && (name == [] ==> Decode(m, named) == Err(EmptyDomain))
            && (name != [] && !IsDomainName(name) ==> Decode(m, named) == Err(InvalidDomainName))
    ensures forall d: Destination ::
              WellNamed(d) && d.port == 0 && m != AssociateRequest ==> Decode(m, Encode(m, d) + rest) == Err(ZeroPort)
  {
    var named := Prelude(m) + [3, |name|] + name + rest;
    assert Slice(named, 5, |name|) == name;
    forall d: Destination | WellNamed(d) && d.port == 0 && m != AssociateRequest
      ensures Decode(m, Encode(m, d) + rest) == Err(ZeroPort)
    {
      DestinationRead(m, d, rest);
    }
  }

  // ---- Round trips ----

  lemma AddressRead(input: Bytes, cursor: nat, address: Address)
    requires address.Domain? ==> IsDomainName(address.name)
    requires StandsAt(input, cursor, AddressBytes(address))
    ensures AddressFrom(input, cursor) == Ok(Parsed(address, cursor + |AddressBytes(address)|))
  {
    match address {
      case Ipv4(octets) =>
        StandsSplit(input, cursor, [ADDRESS_IPV4], octets);
        assert input[cursor..cursor + 1][0] == ADDRESS_IPV4;
      case Domain(name) =>
        var head: Bytes := [ADDRESS_DOMAIN, |name|];
        StandsSplit(input, cursor, head, name);
        assert input[cursor] == input[cursor..cursor + 2][0] == head[0];
        assert input[cursor + 1] == input[cursor..cursor + 2][1] == head[1];
      case Ipv6(octets) =>
        StandsSplit(input, cursor, [ADDRESS_IPV6], octets);
        assert input[cursor..cursor + 1][0] == ADDRESS_IPV6;
    }
  }

  lemma EncodedLength(m: Message, destination: Destination)
    requires WellNamed(destination)
    ensures |Encode(m, destination)| == HeaderLength(destination) <= MAX_REQUEST
  {
  }

  /** A destination whose bytes stand in the input is read from there. */
  lemma StandingRead(input: Bytes, cursor: nat, destination: Destination)
    requires WellNamed(destination)
    requires StandsAt(input, cursor, AddressBytes(destination.address) + PortBytes(destination.port))
    ensures DestinationFrom(input, cursor) ==
            Ok(Parsed(destination, cursor + |AddressBytes(destination.address)| + 2))
  {
    var address, port := AddressBytes(destination.address), PortBytes(destination.port);
    StandsSplit(input, cursor, address, port);
    AddressRead(input, cursor, destination.address);
    var next := cursor + |address|;
    assert input[next..next + 2][0] == port[0] && input[next..next + 2][1] == port[1];
  }

  lemma DestinationRead(m: Message, destination: Destination, payload: Bytes)
    requires WellNamed(destination)
    ensures var input := Encode(m, destination) + payload;
            && PreludeError(m, input).None?
            && DestinationFrom(input, 3) == Ok(Parsed(destination, HeaderLength(destination)))
  {
    EncodedLength(m, destination);
    var input := Encode(m, destination) + payload;
    var address, port := AddressBytes(destination.address), PortBytes(destination.port);
    assert input == Prelude(m) + (address + port) + payload;
    Standing(Prelude(m), address + port, payload);
    StandingRead(input, 3, destination);
  }

  /** Decoding an encoded header in front of any payload gives back the destination and the header's length. */
  lemma RoundTrip(m: Message, destination: Destination, payload: Bytes)
    requires Carries(m, destination)
    ensures var input := Encode(m, destination) + payload;
            && Decode(m, input) == Ok(Parsed(destination, HeaderLength(destination)))
            && input[HeaderLength(destination)..] == payload
  {
    EncodedLength(m, destination);
    DestinationRead(m, destination, payload);
  }

  lemma AddressOwnBytes(input: Bytes, cursor: nat)
    requires AddressFrom(input, cursor).Ok?
    ensures var a := AddressFrom(input, cursor).value;
            && (a.item.Domain? ==> IsDomainName(a.item.name))
            && AddressBytes(a.item) == input[cursor..a.next]
  {
    var a := AddressFrom(input, cursor).value;
    match a.item {
      case Ipv4(octets) =>
        assert input[cursor..a.next] == [input[cursor]] + Slice(input, cursor + 1, 4);
      case Domain(name) =>
        assert input[cursor..a.next] == [input[cursor], input[cursor + 1]] + Slice(input, cursor + 2, |name|);
      case Ipv6(octets) =>
        assert input[cursor..a.next] == [input[cursor]] + Slice(input, cursor + 1, 16);
    }
  }

  lemma DestinationOwnBytes(input: Bytes, cursor: nat)
    requires DestinationFrom(input, cursor).Ok?
    ensures var d := DestinationFrom(input, cursor).value;
            && WellNamed(d.item)
            && AddressBytes(d.item.address) + PortBytes(d.item.port) == input[cursor..d.next]
  {
    AddressOwnBytes(input, cursor);
    var a, d := AddressFrom(input, cursor).value, DestinationFrom(input, cursor).value;
    assert input[cursor..d.next] == input[cursor..a.next] + [input[a.next], input[a.next + 1]];
  }

  /** The three bytes in front of an accepted destination. */
  lemma PreludeOwnBytes(m: Message, input: Bytes)
    requires PreludeError(m, input).None?
    ensures Prelude(m) == if m == Datagram then [0, 0] + input[2..3] else input[..3]
  {
    if m == Datagram {
      assert input[2..3] == [0];
    } else {
      assert input[..3] == [input[0], input[1], input[2]];
    }
  }

  lemma Glued(input: Bytes, next: nat)
    requires 3 <= next <= |input|
    ensures input[..3] + input[3..next] == input[..next]
    ensures [0, 0] + input[2..3] + input[3..next] == [0, 0] + input[2..next]
  {
  }

  lemma EncodeParts(m: Message, destination: Destination)
    requires WellNamed(destination)
    ensures Encode(m, destination) == Prelude(m) + (AddressBytes(destination.address) + PortBytes(destination.port))
  {
  }

  /** An accepted header is the encoding of what was read from it, up to a datagram's ignored first two bytes. */
  lemma AcceptedIsEncoded(m: Message, input: Bytes)
    requires Decode(m, input).Ok?
    ensures var d := Decode(m, input).value;
            && Carries(m, d.item)
            && Encode(m, d.item) == (if m == Datagram then [0, 0] + input[2..d.next] else input[..d.next])
  {
    var d := Decode(m, input).value;
    DestinationOwnBytes(input, 3);
    PreludeOwnBytes(m, input);
    Glued(input, d.next);
    EncodeParts(m, d.item);
  }

  /** Exactly what is accepted: input that begins with the encoding of a destination the message can carry, where
      the first two bytes of a datagram may be anything. */
  lemma AcceptedExactly(m: Message, input: Bytes, d: Destination)
    ensures Decode(m, input) == Ok(Parsed(d, HeaderLength(d))) <==>
            && Carries(m, d) && HeaderLength(d) <= |input|
            && Encode(m, d) == if m == Datagram then [0, 0] + input[2..HeaderLength(d)] else input[..HeaderLength(d)]
  {
    if Decode(m, input) == Ok(Parsed(d, HeaderLength(d))) {
      AcceptedIsEncoded(m, input);
    }
    if Carries(m, d) && HeaderLength(d) <= |input| {
      EncodedLength(m, d);
      HeaderRead(m, input, d);
    }
  }

  lemma HeaderRead(m: Message, input: Bytes, d: Destination)
    requires Carries(m, d) && 4 <= HeaderLength(d) <= |input| && |Encode(m, d)| == HeaderLength(d)
    ensures Encode(m, d) == (if m == Datagram then [0, 0] + input[2..HeaderLength(d)] else input[..HeaderLength(d)]) ==>
              Decode(m, input) == Ok(Parsed(d, HeaderLength(d)))
  {
    var n := HeaderLength(d);
    var header := if m == Datagram then [0, 0] + input[2..n] else input[..n];
    if Encode(m, d) == header {
      EncodeParts(m, d);
      assert header[3..] == input[3..n] && header[..3] == Prelude(m);
      assert header[2] == input[2] && (m != Datagram ==> header[0] == input[0] && header[1] == input[1]);
      assert header[..3][0] == header[0] && header[..3][1] == header[1] && header[..3][2] == header[2];
      StandingRead(input, 3, d);
    }
  }

  /** Two destinations with the same header are the same destination. */
  lemma EncodeInjective(m: Message, a: Destination, b: Destination)
    requires Carries(m, a) && Carries(m, b) && Encode(m, a) == Encode(m, b)
    ensures a == b
  {
    RoundTrip(m, a, []);
    RoundTrip(m, b, []);
  }

  // ---- Method offers ----

  datatype Offer = Offer(methods: Bytes, consumed: nat)

  function DecodeOffer(input: Bytes): (r: Result<Offer, DecodeError>)
    ensures r.Ok? ==> r.value.consumed <= |input|
  {
    if |input| < 1 then Err(Missing(input, 0, 1, "version"))
    else if input[0] != VERSION then Err(InvalidVersion(input[0]))
    else if |input| < 2 then Err(Missing(input, 1, 1, "method count"))
    else if input[1] == 0 then Err(InvalidMethodCount)
    else if 2 + input[1] > |input| then Err(Missing(input, 2, input[1], "method list"))
    else
      var methods := Slice(input, 2, input[1]);
      if NO_AUTHENTICATION in methods then Ok(Offer(methods, 2 + |methods|)) else Err(UnsupportedMethod)
  }

  lemma OfferStable(input: Bytes, more: Bytes)
    requires !Incomplete(DecodeOffer(input))
    ensures DecodeOffer(input + more) == DecodeOffer(input)
  {
    if |input| >= 2 && 2 + input[1] <= |input| {
      SliceStable(input, more, 2, input[1]);
    }
  }

  lemma IncompleteOfferIsShort(input: Bytes)
    requires Incomplete(DecodeOffer(input))
    ensures |input| < 257
  {
  }

  /** An offer is accepted exactly when it lists 1 to 255 methods, all present, one of them no-authentication. */
  lemma OfferAccepted(methods: Bytes, rest: Bytes)
    ensures 0 < |methods| <= 255 ==>
              (DecodeOffer([5, |methods|] + methods + rest) ==
               if 0 in methods then Ok(Offer(methods, 2 + |methods|)) else Err(UnsupportedMethod))
  {
    if 0 < |methods| <= 255 {
      var input := [5, |methods|] + methods + rest;
      assert Slice(input, 2, |methods|) == methods;
    }
  }

  /** An offer is refused for its version before its count, and a short list is reported with its shortfall. */
  lemma BadOffers(input: Bytes)
    ensures |input| >= 1 && input[0] != 5 ==> DecodeOffer(input) == Err(InvalidVersion(input[0]))
    ensures |input| >= 2 && input[0] == 5 && input[1] == 0 ==> DecodeOffer(input) == Err(InvalidMethodCount)
    ensures |input| >= 2 && input[0] == 5 && input[1] > |input| - 2 ==>
              DecodeOffer(input) == Err(IncompleteInput("method list", input[1], |input| - 2))
  {
  }

  // ---- The cursor ----

  class Cursor {
    const input: Bytes
    var position: nat

    ghost predicate Valid()
      reads this
    {
      position <= |input|
    }

    constructor (input: Bytes)
      ensures Valid() && this.input == input && position == 0
    {
      this.input, position := input, 0;
    }

    method Take(length: nat, field: string) returns (r: Result<Bytes, DecodeError>)
      requires Valid()
      modifies this
      ensures Valid()
      ensures old(position) + length <= |input| ==>
                r == Ok(Slice(input, old(position), length)) && position == old(position) + length
      ensures old(position) + length > |input| ==>
                r == Err(Missing(input, old(position), length, field)) && position == old(position)
    {
      var remaining := SatSub(|input|, position);
      if remaining < length {
        return Err(IncompleteInput(field, length, remaining));
      }
      var start := position;
      position := position + length;
      return Ok(input[start..position]);
    }

    method ReadByte(field: string) returns (r: Result<Byte, DecodeError>)
      requires Valid()
      modifies this
      ensures Valid()
      ensures old(position) < |input| ==> r == Ok(input[old(position)]) && position == old(position) + 1
      ensures old(position) == |input| ==>
                r == Err(Missing(input, old(position), 1, field)) && position == old(position)
    {
      var bytes := Take(1, field);
      r := match bytes case Err(e) => Err(e) case Ok(b) => Ok(b[0]);
    }

    method ReadDomain() returns (r: Result<Address, DecodeError>)
      requires Valid()
      modifies this
      ensures Valid() && Agrees(r, DomainFrom(input, old(position)), position)
    {
      var length := ReadByte("domain length");
      if length.Err? {
        return Err(length.error);
      }
      if length.value == 0 {
        return Err(EmptyDomain);
      }
      var name := Take(length.value, "domain name");
      if name.Err? {
        return Err(name.error);
      }
      if !IsDomainName(name.value) {
        return Err(InvalidDomainName);
      }
      return Ok(Domain(name.value));
    }

    method ReadAddress() returns (r: Result<Address, DecodeError>)
      requires Valid()
      modifies this
      ensures Valid() && Agrees(r, AddressFrom(input, old(position)), position)
    {
      var kind := ReadByte("address type");
      if kind.Err? {
        return Err(kind.error);
      }
      if kind.value == ADDRESS_IPV4 {
        var octets := Take(4, "IPv4 address");
        r := match octets case Err(e) => Err(e) case Ok(b) => Ok(Ipv4(b));
      } else if kind.value == ADDRESS_DOMAIN {
        r := ReadDomain();
      } else if kind.value == ADDRESS_IPV6 {
        var octets := Take(16, "IPv6 address");
        r := match octets case Err(e) => Err(e) case Ok(b) => Ok(Ipv6(b));
      } else {
        r := Err(UnsupportedAddressType(kind.value));
      }
    }

    method ReadDestination() returns (r: Result<Destination, DecodeError>)
      requires Valid()
      modifies this
      ensures Valid() && Agrees(r, DestinationFrom(input, old(position)), position)
    {
      var address := ReadAddress();
      if address.Err? {
        return Err(address.error);
      }
      var port := Take(2, "destination port");
      r := match port
        case Err(e) => Err(e)
        case Ok(b) => Ok(Destination(address.value, PortOf(b[0], b[1])));
    }
  }

  /** A cursor read agrees with a parse: same item and position, or the same error. */
  predicate Agrees<T(==)>(r: Result<T, DecodeError>, parse: Result<Parsed<T>, DecodeError>, position: nat) {
    match parse
    case Err(e) => r == Err(e)
    case Ok(p) => r == Ok(p.item) && position == p.next
  }

  datatype Received = Received(destination: Destination, consumed: nat, payload: Bytes)

  /** A decoded message with what follows its header. */
  function Split(parse: Result<Parsed<Destination>, DecodeError>, input: Bytes): Result<Received, DecodeError>
    requires parse.Ok? ==> parse.value.next <= |input|
  {
    match parse
    case Err(e) => Err(e)
    case Ok(p) => Ok(Received(p.item, p.next, input[p.next..]))
  }

  method DecodeRequest(m: Message, input: Bytes) returns (r: Result<Received, DecodeError>)
    requires m != Datagram
    ensures r == Split(Decode(m, input), input)
  {
    var cursor := new Cursor(input);
    var version := cursor.ReadByte("version");
    if version.Err? {
      return Err(version.error);
    }
    if version.value != VERSION {
      return Err(InvalidVersion(version.value));
    }
    var command := cursor.ReadByte("command");
    if command.Err? {
      return Err(command.error);
    }
    if command.value != Command(m) {
      return Err(UnsupportedCommand(command.value));
    }
    var reserved := cursor.ReadByte("reserved field");
    if reserved.Err? {
      return Err(reserved.error);
    }
    if reserved.value != 0 {
      return Err(InvalidReservedField(reserved.value));
    }
    var destination := cursor.ReadDestination();
    if destination.Err? {
      return Err(destination.error);
    }
    if m == ConnectRequest && destination.value.port == 0 {
      return Err(ZeroPort);
    }
    DestinationOwnBytes(input, 3);
    if !WellNamed(destination.value) {
      return Err(InvalidDomainName);
    }
    return Ok(Received(destination.value, cursor.position, input[cursor.position..]));
  }

  method DecodeDatagram(input: Bytes) returns (r: Result<Received, DecodeError>)
    ensures r == Split(Decode(Datagram, input), input)
  {
    var cursor := new Cursor(input);
    var reserved := cursor.Take(2, "UDP reserved");
    if reserved.Err? {
      return Err(reserved.error);
    }
    var fragment := cursor.ReadByte("UDP fragment");
    if fragment.Err? {
      return Err(fragment.error);
    }
    if fragment.value != 0 {
      return Err(FragmentedUdp(fragment.value));
    }
    var destination := cursor.ReadDestination();
    if destination.Err? {
      return Err(destination.error);
    }
    if destination.value.port == 0 {
      return Err(ZeroPort);
    }
    DestinationOwnBytes(input, 3);
    if !WellNamed(destination.value) {
      return Err(InvalidDomainName);
    }
    return Ok(Received(destination.value, cursor.position, input[cursor.position..]));
  }

  method DecodeMethodOffer(input: Bytes) returns (r: Result<Offer, DecodeError>)
    ensures r == DecodeOffer(input)
  {
    var cursor := new Cursor(input);
    var version := cursor.ReadByte("version");
    if version.Err? {
      return Err(version.error);
    }
    if version.value != VERSION {
      return Err(InvalidVersion(version.value));
    }
    var count := cursor.ReadByte("method count");
    if count.Err? {
      return Err(count.error);
    }
    if count.value == 0 {
      return Err(InvalidMethodCount);
    }
    var methods := cursor.Take(count.value, "method list");
    if methods.Err? {
      return Err(methods.error);
    }
    if NO_AUTHENTICATION !in methods.value {
      return Err(UnsupportedMethod);
    }
    return Ok(Offer(methods.value, cursor.position));
  }

  // ---- The encoders ----

  function EncodeFault(m: Message, destination: Destination): (fault: Option<EncodeError>)
    ensures fault.None? <==> Carries(m, destination)
    ensures fault == Some(NoPort) <==> m != AssociateRequest && destination.port == 0
    ensures fault.Some? ==> fault.value in {NoPort, BadDomain}
  {
    if m != AssociateRequest && destination.port == 0 then Some(NoPort)
    else if !WellNamed(destination) then Some(BadDomain)
    else None
  }

  method CopyTo(output: array<Byte>, start: nat, bytes: Bytes)
    requires start + |bytes| <= output.Length
    modifies output
    ensures output[..] == old(output[..start]) + bytes + old(output[start + |bytes|..])
  {
    forall i | 0 <= i < |bytes| {
      output[start + i] := bytes[i];
    }
  }

  /** Writing `part` behind what is done leaves that, `part`, and the rest of what was there. */
  lemma Overwritten(was: Bytes, done: Bytes, part: Bytes, now: Bytes)
    requires |done| + |part| <= |was|
    requires now == (done + was[|done|..])[..|done|] + part + (done + was[|done|..])[|done| + |part|..]
    ensures now == done + part + was[|done + part|..]
  {
    assert (done + was[|done|..])[..|done|] == done;
    assert (done + was[|done|..])[|done| + |part|..] == was[|done + part|..];
  }

  /** Writes the next part of a header. */
  method WritePart(output: array<Byte>, ghost was: Bytes, ghost done: Bytes, start: nat, part: Bytes)
    requires start == |done| && |done| + |part| <= |was| == output.Length
    requires output[..] == done + was[|done|..]
    modifies output
    ensures output[..] == done + part + was[|done + part|..]
  {
    CopyTo(output, start, part);
    Overwritten(was, done, part, output[..]);
  }

  /** Writes a request header; whatever the error, the output is as it was. */
  method EncodeRequest(m: Message, destination: Destination, output: array<Byte>)
    returns (r: Result<nat, EncodeError>)
    requires m != Datagram
    modifies output
    ensures r.Err? ==> output[..] == old(output[..])
    ensures r.Err? <==> EncodeFault(m, destination).Some? || output.Length < HeaderLength(destination)
    ensures r.Err? ==> r.error == match EncodeFault(m, destination)
                                  case Some(e) => e
                                  case None => OutputTooSmall(HeaderLength(destination), output.Length)
    ensures r.Ok? ==> r.value == HeaderLength(destination)
    ensures r.Ok? ==> output[..] == Encode(m, destination) + old(output[HeaderLength(destination)..])
  {
    if m == ConnectRequest && destination.port == 0 {
      return Err(NoPort);
    }
    if !WellNamed(destination) {
      return Err(BadDomain);
    }
    var required := HeaderLength(destination);
    if output.Length < required {
      return Err(OutputTooSmall(required, output.Length));
    }
    ghost var was := output[..];
    EncodedLength(m, destination);
    var address, port := AddressBytes(destination.address), PortBytes(destination.port);
    assert was == [] + was[0..];
    WritePart(output, was, [], 0, [VERSION, Command(m), 0]);
    assert [] + [VERSION, Command(m), 0] == Prelude(m);
    WritePart(output, was, Prelude(m), 3, address);
    WritePart(output, was, Prelude(m) + address, 3 + |address|, port);
    return Ok(required);
  }

  /** A growable output buffer. */
  class ByteVec {
    var bytes: Bytes

    constructor (bytes: Bytes)
      ensures this.bytes == bytes
    {
      this.bytes := bytes;
    }
  }

  /** Replaces the buffer by a datagram; a destination it cannot carry leaves the buffer alone. */
  method EncodeDatagram(destination: Destination, payload: Bytes, output: ByteVec)
    returns (r: Result<(), EncodeError>)
    modifies output
    ensures r.Ok? <==> Carries(Datagram, destination)
    ensures r.Ok? ==> output.bytes == Encode(Datagram, destination) + payload
    ensures r.Err? ==> output.bytes == old(output.bytes) && EncodeFault(Datagram, destination) == Some(r.error)
  {
    if destination.port == 0 {
      return Err(NoPort);
    }
    if !WellNamed(destination) {
      return Err(BadDomain);
    }
    output.bytes := [];
    output.bytes := output.bytes + [0, 0, 0];
    match destination.address {
      case Ipv4(octets) => output.bytes := output.bytes + [ADDRESS_IPV4] + octets;
      case Domain(name) => output.bytes := output.bytes + [ADDRESS_DOMAIN] + [|name|] + name;
      case Ipv6(octets) => output.bytes := output.bytes + [ADDRESS_IPV6] + octets;
    }
    assert output.bytes == Prelude(Datagram) + AddressBytes(destination.address);
    output.bytes := output.bytes + PortBytes(destination.port);
    output.bytes := output.bytes + payload;
    return Ok(());
  }
}
