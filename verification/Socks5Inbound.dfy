/**
 The inbound handshake (src/client/socks5_inbound.rs:134-210): bytes accumulate, in chunks of any
 size, until the codec decides.  What is decided depends on the bytes alone.
 */
module Socks5Inbound {
  import opened Words
  import opened Wrappers
  import opened ByteStrings
  import opened Socks5

  const OFFER_BUFFER: nat := 512
  const READ_BUFFER: nat := 512
  const MAX_PENDING: nat := 1024

  datatype Request = ConnectTo(destination: Destination) | Associate

  datatype Failure = Protocol(error: DecodeError) | PeerClosed | Truncated | OfferTooLarge | RequestTooLarge

  // ---- What the bytes mean ----

  function Settled<T>(r: Result<T, DecodeError>, closed: Failure, accept: T -> Request): Result<Request, Failure> {
    match r
    case Ok(value) => Ok(accept(value))
    case Err(e) => Err(if e.IncompleteInput? then closed else Protocol(e))
  }

  /** The request in a whole command stream: the second byte chooses the decoder before the first is looked at. */
  function CommandOf(bytes: Bytes): Result<Request, Failure> {
    if |bytes| < 2 then Err(Truncated)
    else if bytes[1] == CONNECT then
      Settled(Decode(ConnectRequest, bytes), Truncated, (d: Parsed<Destination>) => ConnectTo(d.item))
    else if bytes[1] == UDP_ASSOCIATE then
      Settled(Decode(AssociateRequest, bytes), Truncated, (d: Parsed<Destination>) => Associate)
    else Err(Protocol(UnsupportedCommand(bytes[1])))
  }

  /** The outcome of a whole inbound stream. */
  function Outcome(bytes: Bytes): Result<Request, Failure> {
    match DecodeOffer(bytes)
    case Ok(offer) => CommandOf(bytes[offer.consumed..])
    case Err(e) => Err(if e.IncompleteInput? then PeerClosed else Protocol(e))
  }

  /** The same stream read with the version checked before anything else. */
  function VersionFirst(bytes: Bytes): Result<Request, Failure> {
    if |bytes| >= 1 && bytes[0] != VERSION then Err(Protocol(InvalidVersion(bytes[0]))) else CommandOf(bytes)
  }

  /** The reader reports something else than a wrong version exactly when the wrong version stands alone or
      in front of a command it does not know. */
  lemma VersionReportedExactly(bytes: Bytes)
    ensures CommandOf(bytes) != VersionFirst(bytes) <==>
            |bytes| >= 1 && bytes[0] != 5 && (|bytes| == 1 || bytes[1] !in {1, 3})
  {
  }

  /** A stream that ends too early fails as closed within the offer and as truncated within the command. */
  lemma EarlyEnd(bytes: Bytes)
    ensures Incomplete(DecodeOffer(bytes)) ==> Outcome(bytes) == Err(PeerClosed)
    ensures DecodeOffer(bytes).Ok? && Undecided(bytes[DecodeOffer(bytes).value.consumed..]) ==>
              Outcome(bytes) == Err(Truncated)
  {
    if DecodeOffer(bytes).Ok? && Undecided(bytes[DecodeOffer(bytes).value.consumed..]) {
      UndecidedIsShort(bytes[DecodeOffer(bytes).value.consumed..]);
    }
  }

  /** What a correct client sends is understood, whatever follows it. */
  lemma HandshakeUnderstood(m: Message, methods: Bytes, destination: Destination, payload: Bytes)
    requires m != Datagram && 0 < |methods| <= 255 && 0 in methods && Carries(m, destination)
    ensures Outcome([5, |methods|] + methods + Encode(m, destination) + payload) ==
            Ok(if m == ConnectRequest then ConnectTo(destination) else Associate)
  {
    var offer, command := [5, |methods|] + methods, Encode(m, destination) + payload;
    var stream := [5, |methods|] + methods + Encode(m, destination) + payload;
    assert stream == offer + command;
    OfferAccepted(methods, command);
    RoundTrip(m, destination, payload);
    EncodedLength(m, destination);
    assert stream[|offer|..] == command;
    assert command[1] == Encode(m, destination)[1] == Command(m);
  }

  // ---- The stream ----

  class Stream {
    const incoming: Bytes
    var taken: nat
    var sent: Bytes

    ghost predicate Valid()
      reads this
    {
      taken <= |incoming|
    }

    constructor (incoming: Bytes)
      ensures Valid() && this.incoming == incoming && taken == 0 && sent == []
    {
      this.incoming, taken, sent := incoming, 0, [];
    }

    /** Any non-empty part of what is left, as long as the buffer holds it; nothing only at the end. */
    method Read(limit: nat) returns (chunk: Bytes)
      requires Valid() && limit > 0
      modifies `taken
      ensures Valid() && old(taken) <= taken
      ensures chunk == incoming[old(taken)..taken] && |chunk| <= limit
      ensures chunk == [] <==> old(taken) == |incoming|
    {
      if taken == |incoming| {
        return [];
      }
      var length: nat :| 1 <= length <= limit && taken + length <= |incoming|;
      chunk := incoming[taken..taken + length];
      taken := taken + length;
    }

    method WriteAll(bytes: Bytes)
      modifies `sent
      ensures sent == old(sent) + bytes
    {
      sent := sent + bytes;
    }
  }

  /** The pending bytes do not decide the command yet. */
  ghost predicate Undecided(pending: Bytes) {
    |pending| < 2
    || (pending[1] == CONNECT && Incomplete(Decode(ConnectRequest, pending)))
    || (pending[1] == UDP_ASSOCIATE && Incomplete(Decode(AssociateRequest, pending)))
  }

  lemma UndecidedIsShort(pending: Bytes)
    requires Undecided(pending)
    ensures |pending| < 262 && CommandOf(pending) == Err(Truncated)
  {
    if |pending| >= 2 {
      IncompleteIsShort(if pending[1] == CONNECT then ConnectRequest else AssociateRequest, pending);
    }
  }

  lemma CommandStable(pending: Bytes, more: Bytes)
    requires !Undecided(pending)
    ensures CommandOf(pending + more) == CommandOf(pending)
  {
    if pending[1] == CONNECT {
      DecodeStable(ConnectRequest, pending, more);
    } else if pending[1] == UDP_ASSOCIATE {
      DecodeStable(AssociateRequest, pending, more);
    }
  }

  /** One look at the pending bytes. */
  method Inspect(pending: Bytes) returns (r: Option<Result<Request, Failure>>)
    ensures r.None? <==> Undecided(pending)
    ensures r.Some? ==> r.value == CommandOf(pending)
  {
    if |pending| < 2 {
      return None;
    }
    if pending[1] == CONNECT {
      var request := DecodeRequest(ConnectRequest, pending);
      match request {
        case Ok(received) => return Some(Ok(ConnectTo(received.destination)));
        case Err(e) => return if e.IncompleteInput? then None else Some(Err(Protocol(e)));
      }
    } else if pending[1] == UDP_ASSOCIATE {
      var request := DecodeRequest(AssociateRequest, pending);
      match request {
        case Ok(_) => return Some(Ok(Associate));
        case Err(e) => return if e.IncompleteInput? then None else Some(Err(Protocol(e)));
      }
    } else {
      return Some(Err(Protocol(UnsupportedCommand(pending[1]))));
    }
  }

  method ReadCommand(stream: Stream, trailing: Bytes, ghost start: nat) returns (r: Result<Request, Failure>)
    requires stream.Valid() && start <= stream.taken && trailing == stream.incoming[start..stream.taken]
    modifies stream`taken
    ensures stream.Valid() && r == CommandOf(stream.incoming[start..])
  {
    var pending := trailing;
    while true
      invariant stream.Valid() && start <= stream.taken && pending == stream.incoming[start..stream.taken]
      decreases |stream.incoming| - stream.taken
    {
      var decision := Inspect(pending);
      if decision.Some? {
        Rejoined(stream.incoming, start, stream.taken);
        CommandStable(pending, stream.incoming[stream.taken..]);
        return decision.value;
      }
      UndecidedIsShort(pending);
      var chunk := stream.Read(READ_BUFFER);
      if chunk == [] {
        assert pending == stream.incoming[start..];
        return Err(Truncated);
      }
      pending := pending + chunk;
      if |pending| > MAX_PENDING {
        return Err(RequestTooLarge);
      }
    }
  }

  /** An offer decided by the first bytes of a stream is the offer of the stream. */
  lemma OfferOfStream(incoming: Bytes, taken: nat)
    requires taken <= |incoming| && !Incomplete(DecodeOffer(incoming[..taken]))
    ensures DecodeOffer(incoming) == DecodeOffer(incoming[..taken])
  {
    OfferStable(incoming[..taken], incoming[taken..]);
    assert incoming[..taken] + incoming[taken..] == incoming;
  }

  /** The whole handshake: however the stream is cut into chunks, the outcome is that of its bytes,
      and the method reply is sent exactly when the offer is acceptable. */
  method NegotiateAndReadRequest(stream: Stream) returns (r: Result<Request, Failure>)
    requires stream.Valid() && stream.taken == 0
    modifies stream
    ensures r == Outcome(stream.incoming)
    ensures stream.sent == old(stream.sent) +
            if DecodeOffer(stream.incoming).Ok? then [5, 0] else []
  {
    var filled: Bytes := [];
    while true
      invariant stream.Valid() && filled == stream.incoming[..stream.taken]
      invariant stream.sent == old(stream.sent) && Incomplete(DecodeOffer(filled))
      decreases |stream.incoming| - stream.taken
    {
      IncompleteOfferIsShort(filled);
      if |filled| >= OFFER_BUFFER {
        return Err(OfferTooLarge);
      }
      var chunk := stream.Read(OFFER_BUFFER - |filled|);
      if chunk == [] {
        assert filled == stream.incoming;
        return Err(PeerClosed);
      }
      filled := filled + chunk;
      assert filled == stream.incoming[..stream.taken];
      var offer := DecodeMethodOffer(filled);
      if !Incomplete(offer) {
        OfferOfStream(stream.incoming, stream.taken);
        if offer.Err? {
          return Err(Protocol(offer.error));
        }
        stream.WriteAll([VERSION, NO_AUTHENTICATION]);
        var trailing := filled[offer.value.consumed..];
        r := ReadCommand(stream, trailing, offer.value.consumed);
        return;
      }
    }
  }
}
