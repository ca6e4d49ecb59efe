/**
 The components together: packet trees serialized by one program, framed, sent, received in any chunks
 among any other connections, deframed, and dispatched to a listener in another.
 */
module EndToEnd {
  import opened Bytes
  import opened Osc
  import opened PacketFormat
  import opened RoundTrip
  import opened StreamFraming
  import opened TcpTransport
  import MessageFormat
  import OutboundClient
  import OutboundPacketStreams
  import OutboundSpec
  import OutboundTheorems
  import ReceivedBundles
  import TcpSessions

  /** What a listener makes of packets handed to it one after the other, up to the first throw. */
  function DispatchAll(packets: seq<seq<byte>>, levels: nat): Delivery
    decreases |packets|
  {
    if packets == [] then Delivery([], None)
    else
      var first := Dispatch(packets[0], levels);
      if first.thrown.Some? then first else Prepend(first.messages, DispatchAll(packets[1..], levels))
  }

  /** Packets a sender may send to a receiver with this frame cap and this nesting limit. */
  predicate Acceptable(ps: seq<Packet>, max: u32, levels: nat) {
    forall i :: 0 <= i < |ps| ==>
      Legal(ps[i]) && |Encode(ps[i])| <= max && |Encode(ps[i])| <= MAX_ELEMENT_SIZE && Depth(ps[i]) <= levels
  }

  lemma EncodedIsDelivered(p: Packet, levels: nat)
    requires Legal(p) && |Encode(p)| <= MAX_ELEMENT_SIZE && Depth(p) <= levels
    ensures Dispatch(Encode(p), levels) == Delivery(Messages(p), None)
  {
    hide Encode, ReadContents, DispatchContents, Depth, Messages, Legal, Gate, OutboundTheorems.Drive;
    WriteThenRead(MAX_ELEMENT_SIZE, p, levels);
    GatedIsDelivered(Encode(p), levels, levels);
  }

  lemma {:induction false} EncodedAreDelivered(ps: seq<Packet>, max: u32, levels: nat)
    requires Acceptable(ps, max, levels)
    ensures DispatchAll(EncodeAll(ps), levels) == Delivery(MessagesOf(ps), None)
    decreases |ps|
  {
    hide Encode, Dispatch, Messages, Legal, Depth;
    if ps != [] {
      EncodedIsDelivered(ps[0], levels);
      assert EncodeAll(ps)[1..] == EncodeAll(ps[1..]);
      EncodedAreDelivered(ps[1..], max, levels);
    }
  }

  /**
   A peer put the frames of acceptable packets on its connection, or as much of that as it could send.
   Once some prefix of its wire has arrived, the listener has been called with exactly the packets whose
   frames are complete, and they dispatch, without a throw, to exactly their messages: once each, in order.
   */
  lemma TreesArrive(server: TcpListeningReceiveSocket, i: nat, ps: seq<Packet>, wire: seq<byte>, levels: nat)
    requires server.Valid() && i < |server.sessions|
    requires Acceptable(ps, server.maxFrameSize, levels)
    requires Prefix(wire, FrameAll(EncodeAll(ps))) && Prefix(server.sessions[i].received, wire)
    ensures var k := CompleteFrames(EncodeAll(ps), |server.sessions[i].received|);
            && PacketsOf(server.calls, i) == EncodeAll(ps[..k])
            && DispatchAll(PacketsOf(server.calls, i), levels) == Delivery(MessagesOf(ps[..k]), None)
            && (server.sessions[i].received == FrameAll(EncodeAll(ps)) ==> k == |ps|)
  {
    hide Encode, DispatchAll, Legal, Depth, FrameAll, CompleteFrames, PacketsOf, MessagesOf;
    var received := server.sessions[i].received;
    var k := CompleteFrames(EncodeAll(ps), |received|);
    assert FrameAll(EncodeAll(ps))[..|received|] == wire[..|received|];
    DeliveredInOrder(server, i, EncodeAll(ps));
    AllComplete(EncodeAll(ps));
    assert EncodeAll(ps)[..k] == EncodeAll(ps[..k]);
    EncodedAreDelivered(ps[..k], server.maxFrameSize, levels);
  }

  // ----- the programs

  predicate Fit(ps: seq<Packet>, capacity: nat) {
    forall i :: 0 <= i < |ps| ==> |Encode(ps[i])| <= capacity
  }

  /** A sender with one stream: clear, serialize, send, for each packet. */
  method SerializeAll(stream: OutboundPacketStreams.OutboundPacketStream, ps: seq<Packet>)
    returns (packets: seq<seq<byte>>)
    requires stream.Valid() && Fit(ps, stream.data.Length)
    modifies stream, stream.data
    ensures stream.Valid() && packets == EncodeAll(ps)
  {
    hide Encode, OutboundTheorems.Ops, OutboundPacketStreams.Represents, OutboundPacketStreams.Streamable;
    packets := [];
    OutboundPacketStreams.Scalars(stream.Now(), stream.st);
    for i := 0 to |ps|
      invariant stream.Valid() && packets == EncodeAll(ps[..i])
    {
      stream.Clear();
      OutboundClient.SmallIsStreamable(ps[i]);
      var r := OutboundClient.Serialize(stream, ps[i]);
      var size := stream.CurrentSize();
      packets := packets + [stream.data[..size]];
      assert ps[..i + 1] == ps[..i] + [ps[i]];
    }
    assert ps[..|ps|] == ps;
  }

  /** On a new connection: the wire gets the frames, all of them iff the sender is done. */
  method SendTrees(stream: OutboundPacketStreams.OutboundPacketStream, socket: TcpTransmitSocket, ps: seq<Packet>)
    returns (status: SendStatus, ghost used: seq<SendResult>)
    requires stream.Valid() && Fit(ps, stream.data.Length) && socket.wire == []
    modifies stream, stream.data, socket
    ensures stream.Valid()
    ensures Prefix(socket.wire, FrameAll(EncodeAll(ps)))
    ensures status == Sent <==> socket.wire == FrameAll(EncodeAll(ps))
    ensures old(socket.results) == used + socket.results && (status == Blocked ==> socket.results == [])
    ensures Accounted(FrameSizes(EncodeAll(ps)), used, |socket.wire|, status)
  {
    hide FrameAll, Encode, OutboundPacketStreams.Represents, TakesAll, FrameSizes;
    var packets := SerializeAll(stream, ps);
    ghost var n;
    status, used, n := socket.SendEach(packets);
    ghost var all := FrameAll(packets);
    assert socket.wire == [] + all[..n] == all[..n];
  }

  /** `(int)size` for the size of a frame. */
  lemma DispatchOfSize(packet: seq<byte>, levels: nat)
    requires |packet| < 0x1_0000_0000
    ensures Signed32(|packet|) < 0 ==>
              Dispatch(packet, levels) == Delivery([], Some(Malformed(MessageFormat.InvalidPacketSize)))
    ensures Signed32(|packet|) >= 0 ==> Signed32(|packet|) == |packet|
  {
  }

  /** The listener is handed packets in a row. */
  method HandOver(listener: ReceivedBundles.OscPacketListener, packets: seq<seq<byte>>)
    returns (thrown: Option<Thrown>)
    requires forall i :: 0 <= i < |packets| ==> |packets[i]| < 0x1_0000_0000
    modifies listener
    ensures listener.Did(DispatchAll(packets, old(listener.Levels())), thrown)
  {
    hide Dispatch, Cut, DispatchAll, Signed32;
    ghost var levels := listener.Levels();
    ghost var total := Prepend(listener.delivered,
                               Cut(DispatchAll(packets, levels), |listener.delivered|, listener.fails));
    var rest := packets;
    while rest != []
      invariant forall i :: 0 <= i < |rest| ==> |rest[i]| < 0x1_0000_0000
      invariant listener.bundleNestingDepth == old(listener.bundleNestingDepth)
      invariant listener.maxBundleNestingDepth == old(listener.maxBundleNestingDepth)
      invariant total == Prepend(listener.delivered,
                                 Cut(DispatchAll(rest, levels), |listener.delivered|, listener.fails))
      decreases |rest|
    {
      DispatchFirst(rest, levels);
      DispatchOfSize(rest[0], levels);
      CutThen(listener.delivered, Dispatch(rest[0], levels), DispatchAll(rest[1..], levels), listener.fails);
      thrown := listener.ProcessPacket(rest[0], Signed32(|rest[0]|));
      if thrown.Some? {
        return;
      }
      rest := rest[1..];
    }
    DispatchNone(levels);
    ReceivedBundles.CutNothing(|listener.delivered|, listener.fails);
    thrown := None;
  }

  lemma DispatchFirst(packets: seq<seq<byte>>, levels: nat)
    requires packets != []
    ensures var first := Dispatch(packets[0], levels);
            DispatchAll(packets, levels)
            == if first.thrown.Some? then first else Prepend(first.messages, DispatchAll(packets[1..], levels))
  {
  }

  lemma DispatchNone(levels: nat)
    ensures DispatchAll([], levels) == Delivery([], None)
  {
  }

  lemma CallsWithin(server: TcpListeningReceiveSocket, i: nat)
    requires server.Valid() && i < |server.sessions|
    ensures AllWithin(server.maxFrameSize, PacketsOf(server.calls, i))
  {
    hide PacketsOf, SplitStream;
    assert SessionKept(server.maxFrameSize, server.sessions, server.calls, i);
    SplitWithinCap(server.maxFrameSize, server.sessions[i].received);
  }

  /**
   Both programs. The sender serializes acceptable packets and sends them, as far as it gets; a new server
   lives through any events; the packets of one connection are handed to a listener that never throws.
   If what was read from that connection while it was open is a prefix of what the sender put on the wire,
   the listener ends up with exactly the messages of the packets that have fully arrived; with all
   messages, if all was sent and has arrived.
   */
  method SendAndReceive(
    stream: OutboundPacketStreams.OutboundPacketStream, socket: TcpTransmitSocket, server: TcpListeningReceiveSocket,
    listener: ReceivedBundles.OscPacketListener, ps: seq<Packet>, events: seq<Event>, session: nat)
    returns (status: SendStatus, thrown: Option<Thrown>)
    requires stream.Valid() && Fit(ps, stream.data.Length) && socket.wire == []
    requires server.Valid() && {stream, stream.data, socket, listener} !! server.Repr
    requires server.View() == Server(map[], [])
    requires listener.delivered == [] && listener.bundleNestingDepth == 0 && forall n :: !listener.fails(n)
    requires Acceptable(ps, server.maxFrameSize, listener.maxBundleNestingDepth)
    modifies stream, stream.data, socket, server, server.Repr, listener
    ensures server.Valid() && TcpSessions.HasSessions(server.maxFrameSize, events, server.View())
    ensures var starts := TcpSessions.StartsOf(server.maxFrameSize, events);
            session < |starts| ==>
              var received := TcpSessions.SessionAt(server.maxFrameSize, events, starts[session]).received;
              Prefix(received, socket.wire) ==>
                var k := CompleteFrames(EncodeAll(ps), |received|);
                && thrown == None && listener.delivered == MessagesOf(ps[..k])
                && (status == Sent && received == socket.wire ==> k == |ps|)
  {
    hide Encode, Dispatch, DispatchAll, Cut, Legal, FrameAll, CompleteFrames, PacketsOf, MessagesOf, SplitStream;
    hide Fit, Acceptable, Prefix, OutboundPacketStreams.Represents, SessionKept, Holds, CallsKnown, Accounted;
    hide TcpSessions.HasSessions, TcpSessions.SessionAt, TcpSessions.StartsOf, ServerRun, Apart;
    ghost var used;
    status, used := SendTrees(stream, socket, ps);
    server.Serve(events);
    TcpSessions.ServesExactly(server.maxFrameSize, events);
    TcpSessions.SessionsReceived(server.maxFrameSize, events, server.View());
    thrown := None;
    if session < server.accepted {
      ghost var levels := listener.Levels();
      CallsWithin(server, session);
      ghost var d := DispatchAll(PacketsOf(server.calls, session), levels);
      NeverThrows(d, listener.fails);
      thrown := HandOver(listener, PacketsOf(server.calls, session));
      assert Delivery(listener.delivered, thrown) == d;
      if Prefix(server.sessions[session].received, socket.wire) {
        TreesArrive(server, session, ps, socket.wire, levels);
      }
    }
  }
}
