/** Chains of `operator<<` on one stream, as applications write them. */
module OutboundClient {
  import opened Bytes
  import opened Osc
  import opened OutboundSpec
  import opened OutboundTheorems
  import opened OutboundPacketStreams

  method Perform(s: OutboundPacketStream, op: Op) returns (r: Option<Error>)
    requires s.Valid() && Streamable(op)
    modifies s, s.data
    ensures s.Valid() && s.Performed(op, r)
  {
    hide Represents, Step;
    match op
    case Clear =>
      s.Clear();
      r := None;
    case BeginBundle(timeTag) => r := s.BeginBundle(timeTag);
    case EndBundle => r := s.EndBundle();
    case BeginMessage(address) => r := s.BeginMessage(address);
    case EndMessage => r := s.EndMessage();
    case Append(arg) => r := s.Append(arg);
  }

  /** Any operations in any order; a caller that catches the exceptions just carries on. */
  method PerformAll(s: OutboundPacketStream, ops: seq<Op>)
    requires s.Valid() && forall op :: op in ops ==> Streamable(op)
    modifies s, s.data
    ensures s.Valid() && s.st == Follow(s.data.Length, old(s.st), ops)
  {
    hide Represents, Step, Streamable;
    var rest := ops;
    while rest != []
      invariant s.Valid() && forall op :: op in rest ==> Streamable(op)
      invariant Follow(s.data.Length, s.st, rest) == Follow(s.data.Length, old(s.st), ops)
      decreases |rest|
    {
      ghost var before := s.st;
      var r := Perform(s, rest[0]);
      rest := rest[1..];
    }
  }

  /** Stream a packet into an empty stream, up to the first exception. */
  method Serialize(s: OutboundPacketStream, p: Packet) returns (r: Option<Error>)
    requires s.Valid() && s.st == EMPTY
    requires forall op :: op in Ops(p) ==> Streamable(op)
    modifies s, s.data
    ensures s.Valid()
    ensures |Encode(p)| > s.data.Length ==> r == Some(OutOfBufferMemory)
    ensures |Encode(p)| <= s.data.Length ==>
              && r == None
              && Size(s.st) == |Encode(p)|
              && s.data[..|Encode(p)|] == Encode(p)
              && !s.messageIsInProgress && s.elementSizePtr == -1
  {
    hide Represents, Step, Streamable, Encode, Ops, Layout;
    var rest := Ops(p);
    ghost var capacity, all := s.data.Length, rest;
    SerializesIffFits(capacity, p);
    r := None;
    while rest != [] && r == None
      invariant s.Valid() && forall op :: op in rest ==> Streamable(op)
      invariant match r
        case None => Drive(capacity, s.st, rest) == Drive(capacity, EMPTY, all)
        case Some(e) => Drive(capacity, EMPTY, all) == Err(e)
      decreases |rest|
    {
      r := Perform(s, rest[0]);
      rest := rest[1..];
    }
    if r == None {
      ReadyBytes(s.Now(), s.st, Encode(p));
    }
  }

  lemma ReadyBytes(f: Fields, st: State, bytes: seq<byte>)
    requires Represents(f, st) && st == State(Closed(bytes), false, [], [])
    ensures |bytes| <= |f.buffer| && f.buffer[..|bytes|] == bytes && Size(st) == |bytes|
    ensures !f.messageIsInProgress && f.elementSizePtr == -1
  {
  }

  /** Nothing wraps in a packet whose encoding is within the size limit. */
  lemma {:induction false} SmallIsStreamable(p: Packet)
    requires |Encode(p)| <= MAX_ELEMENT_SIZE
    ensures forall op :: op in Ops(p) ==> Streamable(op)
    decreases p, 1
  {
    hide Payloads, TagBlock, Tags, Up4, BundleHeader, Appends, EncodeElements, OpsOf;
    match p
    case Message(address, args) => ArgumentsStreamable(args);
    case Bundle(_, elements) => ElementsStreamable(elements);
  }

  lemma {:induction false} ArgumentsStreamable(args: seq<Arg>)
    requires |Payloads(args)| <= MAX_ELEMENT_SIZE
    ensures forall op :: op in Appends(args) ==> Streamable(op)
    decreases |args|
  {
    hide Bytes32, Bytes64, Up4;
    if args != [] {
      ArgumentsStreamable(args[1..]);
    }
  }

  lemma {:induction false} ElementsStreamable(es: seq<Packet>)
    requires |EncodeElements(es)| <= MAX_ELEMENT_SIZE
    ensures forall op :: op in OpsOf(es) ==> Streamable(op)
    decreases es, 0
  {
    hide Encode, Ops, Streamable;
    if es != [] {
      SmallIsStreamable(es[0]);
      ElementsStreamable(es[1..]);
    }
  }
}
