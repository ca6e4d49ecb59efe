/**
 OSC over TCP (osctap/ip/posix/TcpSocket.h): partial writes on the sending side, and on the receiving
 side one deframer for each of any number of connections, which come, deliver chunks and go in any order.

 Calls to the operating system are parameters: `send`, `accept` and `recv` may return anything they can.
 */
module TcpTransport {
  import opened Bytes
  import opened StreamFraming

  // ----- sending

  /** One result of `::send`: interrupted, an error, or a count of bytes taken. */
  datatype SendResult = Interrupted | Failed | Taken(count: nat)

  datatype SendStatus = Sent | Broken | Blocked

  predicate Prefix(s: seq<byte>, t: seq<byte>) {
    |s| <= |t| && t[..|s|] == s
  }

  // ----- how far a sequence of results gets a sender

  /** The bytes that calls of `::send` with these results take, if there is no end to what they are given. */
  function TakenSum(results: seq<SendResult>): nat {
    if results == [] then 0
    else
      var last := results[|results| - 1];
      TakenSum(results[..|results| - 1]) + if last.Taken? then last.count else 0
  }

  /**
   Sending one buffer of `size` bytes uses exactly `used` and gets `n` bytes out: as many as were taken,
   without a call after the last byte and without one after an error.
   */
  predicate Takes(size: nat, used: seq<SendResult>, n: nat) {
    && n == (if TakenSum(used) < size then TakenSum(used) else size)
    && (used != [] ==> TakenSum(used[..|used| - 1]) < size)
    && forall i :: 0 <= i < |used| - 1 ==> used[i] != Failed
  }

  /** The first buffer uses `used[..cut]`; the next ones have the rest, if it went out whole. */
  ghost predicate TakesFirst(sizes: seq<nat>, used: seq<SendResult>, n: nat, cut: nat)
    requires sizes != []
    decreases |sizes|, 0
  {
    && cut <= |used|
    && if n < sizes[0] then cut == |used| && Takes(sizes[0], used, n)
       else Takes(sizes[0], used[..cut], sizes[0]) && TakesAll(sizes[1..], used[cut..], n - sizes[0])
  }

  /** The same for buffers in a row. */
  ghost predicate TakesAll(sizes: seq<nat>, used: seq<SendResult>, n: nat)
    decreases |sizes|, 1
  {
    if sizes == [] then used == [] && n == 0 else exists cut :: TakesFirst(sizes, used, n, cut)
  }

  function Sum(sizes: seq<nat>): nat {
    if sizes == [] then 0 else sizes[0] + Sum(sizes[1..])
  }

  /** A header and a payload for each packet. */
  function FrameSizes(packets: seq<seq<byte>>): (sizes: seq<nat>)
    ensures Sum(sizes) == |FrameAll(packets)|
  {
    hide Bytes32;
    if packets == [] then []
    else
      var sizes := [4, |packets[0]|] + FrameSizes(packets[1..]);
      assert sizes[1..][1..] == FrameSizes(packets[1..]);
      sizes
  }

  lemma TakesOne(size: nat, used: seq<SendResult>, n: nat)
    requires Takes(size, used, n)
    ensures TakesAll([size], used, n)
  {
    assert used[..|used|] == used && used[|used|..] == [];
    assert TakesFirst([size], used, n, |used|);
  }

  /** After buffers that went out whole come the next ones; after others, nothing. */
  lemma {:induction false} TakesThen(a: seq<nat>, u: seq<SendResult>, n: nat, b: seq<nat>, v: seq<SendResult>, m: nat)
    requires TakesAll(a, u, n)
    requires if n == Sum(a) then TakesAll(b, v, m) else v == [] && m == 0
    ensures n <= Sum(a)
    ensures TakesAll(a + b, u + v, n + m)
    decreases |a|
  {
    hide TakenSum, TakesFirst;
    if a == [] {
      assert a + b == b && u + v == v;
    } else {
      var cut :| TakesFirst(a, u, n, cut);
      TakesThenFirst(a, u, n, b, v, m, cut);
    }
  }

  lemma {:induction false} TakesThenFirst(a: seq<nat>, u: seq<SendResult>, n: nat, b: seq<nat>, v: seq<SendResult>, m: nat,
                                          cut: nat)
    requires a != [] && TakesFirst(a, u, n, cut)
    requires if n == Sum(a) then TakesAll(b, v, m) else v == [] && m == 0
    ensures n <= Sum(a)
    ensures TakesAll(a + b, u + v, n + m)
    decreases |a|, 0
  {
    hide Takes;
    assert (a + b)[0] == a[0];
    if n < a[0] {
      assert u + v == u;
      assert TakesFirst(a + b, u + v, n + m, cut);
    } else {
      TakesThen(a[1..], u[cut..], n - a[0], b, v, m);
      assert (a + b)[1..] == a[1..] + b;
      assert (u + v)[..cut] == u[..cut] && (u + v)[cut..] == u[cut..] + v;
      assert TakesFirst(a + b, u + v, n + m, cut);
    }
  }

  lemma FrameSizesCons(packets: seq<seq<byte>>)
    requires packets != []
    ensures FrameSizes(packets) == [4, |packets[0]|] + FrameSizes(packets[1..])
    ensures Sum([4, |packets[0]|]) == |Frame(packets[0])|
  {
    hide Bytes32, FrameAll, Sum;
    SumOfTwo(4, |packets[0]|);
  }

  lemma SumOfTwo(a: nat, b: nat)
    ensures Sum([a, b]) == a + b
  {
    var two := [a, b];
    assert two[1..] == [b] && [b][1..] == [];
    assert Sum([b]) == b + Sum([b][1..]);
  }

  lemma {:induction false} SumAppend(a: seq<nat>, b: seq<nat>)
    ensures Sum(a + b) == Sum(a) + Sum(b)
    decreases |a|
  {
    if a == [] {
      assert a + b == b;
    } else {
      assert (a + b)[1..] == a[1..] + b;
      SumAppend(a[1..], b);
    }
  }

  /** `n` bytes of buffers of these sizes went out with the results `used`, and so the sender is in `status`. */
  ghost predicate Accounted(sizes: seq<nat>, used: seq<SendResult>, n: nat, status: SendStatus) {
    && TakesAll(sizes, used, n)
    && (status == Sent <==> n == Sum(sizes))
    && (status == Broken <==> used != [] && used[|used| - 1] == Failed)
  }

  lemma AccountedNone()
    ensures Accounted([], [], 0, Sent)
  {
  }

  lemma AccountedSent(sizes: seq<nat>, used: seq<SendResult>, n: nat)
    requires Accounted(sizes, used, n, Sent)
    ensures n == Sum(sizes)
  {
  }

  lemma AccountedThen(a: seq<nat>, u: seq<SendResult>, b: seq<nat>, v: seq<SendResult>, m: nat, status: SendStatus)
    requires Accounted(a, u, Sum(a), Sent) && Accounted(b, v, m, status)
    ensures Accounted(a + b, u + v, Sum(a) + m, status)
  {
    hide TakesAll;
    TakesThen(a, u, Sum(a), b, v, m);
    SumAppend(a, b);
  }

  lemma AccountedStopped(a: seq<nat>, u: seq<SendResult>, n: nat, status: SendStatus, b: seq<nat>)
    requires Accounted(a, u, n, status) && status != Sent
    ensures Accounted(a + b, u, n, status)
  {
    hide TakesAll;
    TakesThen(a, u, n, b, [], 0);
    SumAppend(a, b);
    assert u + [] == u;
  }

  // ----- one buffer, one result at a time

  predicate Going(size: nat, used: seq<SendResult>, sent: nat) {
    Takes(size, used, sent) && Failed !in used
  }

  lemma NothingGone(size: nat)
    ensures Going(size, [], 0)
  {
  }

  lemma GoneSoFar(size: nat, used: seq<SendResult>, sent: nat)
    requires Going(size, used, sent)
    ensures Accounted([size], used, sent, if sent < size then Blocked else Sent)
  {
    TakesOne(size, used, sent);
    assert [size][1..] == [];
  }

  lemma GoesOn(size: nat, used: seq<SendResult>, sent: nat, r: SendResult)
    requires Going(size, used, sent) && sent < size
    ensures r.Interrupted? ==> Going(size, used + [r], sent)
    ensures r.Taken? ==> Going(size, used + [r], if r.count <= size - sent then sent + r.count else size)
    ensures r.Failed? ==> Accounted([size], used + [r], sent, Broken)
  {
    var all := used + [r];
    assert all[..|all| - 1] == used;
    if r.Failed? {
      TakesOne(size, all, sent);
      assert [size][1..] == [];
    }
  }

  class TcpTransmitSocket {
    /** Everything the kernel has taken so far. */
    var wire: seq<byte>

    /**
     What the coming calls of `::send` return (a count above what the call was given stands for all of it);
     when they run out, the sender is still blocked.
     */
    var results: seq<SendResult>

    constructor (results: seq<SendResult>)
      ensures wire == [] && this.results == results
    {
      wire, this.results := [], results;
    }

    /**
     The first `n` bytes of `bytes` went onto the wire, and `used` are the results that were used up; a
     blocked sender is one without a result.
     */
    twostate predicate Transmitted(bytes: seq<byte>, new status: SendStatus, used: seq<SendResult>, n: nat)
      reads this
    {
      && n <= |bytes|
      && wire == old(wire) + bytes[..n]
      && old(results) == used + results
      && (status == Blocked ==> results == [])
    }

    method SendAll(p: seq<byte>) returns (status: SendStatus, ghost used: seq<SendResult>, ghost n: nat)
      modifies this
      ensures Transmitted(p, status, used, n) && Accounted([|p|], used, n, status)
    {
      hide Going, Takes, TakesAll;
      var sent := 0;
      used := [];
      NothingGone(|p|);
      while sent < |p|
        invariant 0 <= sent <= |p| && wire == old(wire) + p[..sent]
        invariant used + results == old(results) && Going(|p|, used, sent)
        decreases |results|
      {
        n := sent;
        if results == [] {
          GoneSoFar(|p|, used, sent);
          return Blocked, used, n;
        }
        var r := results[0];
        results := results[1..];
        GoesOn(|p|, used, sent, r);
        used := used + [r];
        match r
        case Interrupted =>
        case Failed =>
          return Broken, used, n;
        case Taken(count) =>
          var taken := if count <= |p| - sent then count else |p| - sent;
          wire := wire + p[sent..sent + taken];
          assert p[..sent] + p[sent..sent + taken] == p[..sent + taken];
          sent := sent + taken;
      }
      GoneSoFar(|p|, used, sent);
      return Sent, used, sent;
    }

    /** `Send`: the header (the low 32 bits of the size), then the payload. */
    method Send(packet: seq<byte>) returns (status: SendStatus, ghost used: seq<SendResult>, ghost n: nat)
      modifies this
      ensures Transmitted(Frame(packet), status, used, n) && Accounted([4, |packet|], used, n, status)
    {
      hide Bytes32, Accounted;
      assert [4] + [|packet|] == [4, |packet|];
      status, used, n := SendAll(Bytes32(|packet|));
      TwoBuffers(Bytes32(|packet|), packet, n);
      if status != Sent {
        AccountedStopped([4], used, n, status, [|packet|]);
        return;
      }
      AccountedSent([4], used, n);
      ghost var v, k;
      status, v, k := SendAll(packet);
      AccountedThen([4], used, [|packet|], v, k, status);
      TwoBuffersMore(Bytes32(|packet|), packet, k);
      used, n := used + v, 4 + k;
    }

    /** Send packets in order, up to the first that cannot be sent in full. */
    method SendEach(packets: seq<seq<byte>>) returns (status: SendStatus, ghost used: seq<SendResult>, ghost n: nat)
      modifies this
      ensures Transmitted(FrameAll(packets), status, used, n) && Accounted(FrameSizes(packets), used, n, status)
    {
      hide Frame, Accounted, FrameSizes;
      var rest := packets;
      ghost var was := wire;
      status, used, n := Sent, [], 0;
      ghost var done: seq<byte>, sizes: seq<nat> := [], [];
      AccountedNone();
      assert [] + FrameSizes(packets) == FrameSizes(packets);
      while rest != []
        invariant wire == was + done && done + FrameAll(rest) == FrameAll(packets) && n == |done|
        invariant sizes + FrameSizes(rest) == FrameSizes(packets)
        invariant used + results == old(results) && Accounted(sizes, used, n, Sent)
        decreases |rest|
      {
        ghost var frame, more := Frame(rest[0]), [4, |rest[0]|];
        ghost var v, k;
        FrameSizesCons(rest);
        status, v, k := Send(rest[0]);
        PartOfFrames(was, done, frame, FrameAll(rest[1..]), k);
        AccountedSent(sizes, used, n);
        AccountedThen(sizes, used, more, v, k, status);
        used, n := used + v, n + k;
        if status != Sent {
          AccountedStopped(sizes + more, used, n, status, FrameSizes(rest[1..]));
          assert sizes + more + FrameSizes(rest[1..]) == sizes + (more + FrameSizes(rest[1..]));
          return;
        }
        AccountedSent(more, v, k);
        sizes, done := sizes + more, done + frame;
        rest := rest[1..];
      }
      NothingLeft(sizes, done);
      status := Sent;
    }
  }

  lemma NothingLeft(sizes: seq<nat>, done: seq<byte>)
    ensures sizes + FrameSizes([]) == sizes && done + FrameAll([]) == done && done[..|done|] == done
  {
  }

  lemma TwoBuffers(a: seq<byte>, b: seq<byte>, n: nat)
    requires n <= |a|
    ensures (a + b)[..n] == a[..n] && a[..|a|] == a
  {
  }

  lemma TwoBuffersMore(a: seq<byte>, b: seq<byte>, k: nat)
    requires k <= |b|
    ensures (a + b)[..|a| + k] == a + b[..k]
  {
  }

  lemma PartOfFrames(was: seq<byte>, done: seq<byte>, frame: seq<byte>, tail: seq<byte>, n: nat)
    requires n <= |frame|
    ensures (done + (frame + tail))[..|done| + n] == done + frame[..n]
    ensures was + done + frame[..n] == was + (done + frame[..n])
    ensures n == |frame| ==> frame[..n] == frame
    ensures done + (frame + tail) == done + frame + tail
  {
  }

  // ----- receiving

  /** What `recv` returned: some bytes, or end of stream or an error. */
  datatype Received = Chunk(bytes: seq<byte>) | NoMore

  datatype Event =
    | Accept(descriptor: int, peer: int)
    | Readable(descriptor: int, received: Received)

  /** A connection (numbered as accepted): its peer and its own deframer. */
  datatype Connection = Connection(session: nat, peer: int, deframer: OscStreamDeframer)

  /** A connection, with its deframer by the bytes that it keeps pending. */
  datatype Kept = Kept(session: nat, peer: int, pending: seq<byte>)

  /** One accepted connection, from accept to close: all it received, and whether it is still open. */
  datatype Session = Session(peer: int, received: seq<byte>, live: bool)

  /** One call of `ProcessPacket`, and the connection whose `Consume` made it. */
  datatype Call = Call(session: nat, peer: int, packet: seq<byte>)

  /** The packets the listener was given for one session, in order. */
  function PacketsOf(calls: seq<Call>, session: nat): seq<seq<byte>> {
    if calls == [] then []
    else
      var last := calls[|calls| - 1];
      PacketsOf(calls[..|calls| - 1], session) + if last.session == session then [last.packet] else []
  }

  function CallsFor(session: nat, peer: int, packets: seq<seq<byte>>): (calls: seq<Call>)
    ensures |calls| == |packets|
  {
    seq(|packets|, i requires 0 <= i < |packets| => Call(session, peer, packets[i]))
  }

  lemma {:induction false} PacketsOfAppend(calls: seq<Call>, session: nat, peer: int, packets: seq<seq<byte>>, other: nat)
    ensures PacketsOf(calls + CallsFor(session, peer, packets), other)
            == PacketsOf(calls, other) + if session == other then packets else []
    decreases |packets|
  {
    if packets == [] {
      assert calls + CallsFor(session, peer, packets) == calls;
    } else {
      var k := |packets| - 1;
      var all := calls + CallsFor(session, peer, packets);
      assert all[..|all| - 1] == calls + CallsFor(session, peer, packets[..k]);
      PacketsOfAppend(calls, session, peer, packets[..k], other);
      assert packets == packets[..k] + [packets[k]];
    }
  }

  /** What a session has received, is owed and keeps pending. */
  predicate SessionKept(max: nat, sessions: seq<Session>, calls: seq<Call>, i: nat) {
    i < |sessions| ==>
      && PacketsOf(calls, i) == SplitStream(max, sessions[i].received).packets
      && (sessions[i].live ==> SplitStream(max, sessions[i].received).ok)
  }

  /** The server without its deframers: which session each open descriptor stands for, and the sessions. */
  datatype Server = Server(owner: map<int, nat>, sessions: seq<Session>)

  /** One event. A session ends with its stream, or when the stream announces an oversized frame. */
  function ServerStep(max: nat, s: Server, e: Event): Server {
    match e
    case Accept(fd, peer) =>
      if fd in s.owner then s
      else Server(s.owner[fd := |s.sessions|], s.sessions + [Session(peer, [], true)])
    case Readable(fd, received) =>
      if fd !in s.owner || s.owner[fd] >= |s.sessions| then s
      else
        var k := s.owner[fd];
        var all := s.sessions[k].received + if received.Chunk? then received.bytes else [];
        var ok := received.Chunk? && SplitStream(max, all).ok;
        Server(if ok then s.owner else s.owner - {fd}, s.sessions[k := Session(s.sessions[k].peer, all, ok)])
  }

  function ServerRun(max: nat, s: Server, events: seq<Event>): Server
    decreases |events|
  {
    if events == [] then s else ServerRun(max, ServerStep(max, s, events[0]), events[1..])
  }

  function Owners(connections: map<int, Connection>): map<int, nat> {
    map fd | fd in connections :: connections[fd].session
  }

  lemma OwnersAccepted(connections: map<int, Connection>, fd: int, c: Connection)
    ensures Owners(connections[fd := c]) == Owners(connections)[fd := c.session]
  {
  }

  lemma OwnersClosed(connections: map<int, Connection>, fd: int)
    ensures Owners(connections - {fd}) == Owners(connections) - {fd}
  {
  }

  lemma OwnerOf(connections: map<int, Connection>, fd: int)
    ensures fd in Owners(connections) <==> fd in connections
    ensures fd in connections ==> Owners(connections)[fd] == connections[fd].session
  {
  }

  /** No two open connections share a session or a deframer. */
  predicate Apart(connections: map<int, Connection>) {
    forall fd, fd' :: fd in connections && fd' in connections && fd != fd' ==>
      && connections[fd].session != connections[fd'].session
      && connections[fd].deframer != connections[fd'].deframer
      && connections[fd].deframer.header != connections[fd'].deframer.header
  }

  lemma ApartAccepted(connections: map<int, Connection>, fd: int, c: Connection)
    requires Apart(connections) && fd !in connections
    requires forall other :: other in connections ==>
               && connections[other].session != c.session
               && connections[other].deframer != c.deframer
               && connections[other].deframer.header != c.deframer.header
    ensures Apart(connections[fd := c])
  {
  }

  /** The connection's deframer is in order, and has pending what its session's stream leaves over. */
  ghost predicate Holds(max: u32, c: Connection, sessions: seq<Session>, repr: set<object>)
    reads c.deframer, c.deframer.header
  {
    && c.deframer in repr && c.deframer.header in repr
    && c.deframer.Valid() && c.deframer.maxFrameSize == max
    && Represents(max, Kept(c.session, c.peer, c.deframer.Pending()), sessions)
  }

  lemma HoldsAfterAccept(max: u32, c: Connection, sessions: seq<Session>, repr: set<object>, more: Session,
                         repr': set<object>)
    requires Holds(max, c, sessions, repr) && repr <= repr'
    ensures Holds(max, c, sessions + [more], repr')
    ensures c.session < |sessions|
  {
    hide SplitStream, Bytes32;
  }

  lemma HoldsSession(max: u32, c: Connection, sessions: seq<Session>, repr: set<object>)
    requires Holds(max, c, sessions, repr)
    ensures c.session < |sessions|
  {
  }

  lemma NewHolds(max: u32, c: Connection, sessions: seq<Session>, repr: set<object>)
    requires c.session == |sessions| && c.deframer.Valid() && c.deframer.maxFrameSize == max
    requires c.deframer.Pending() == []
    ensures Holds(max, c, sessions + [Session(c.peer, [], true)], repr + {c.deframer, c.deframer.header})
  {
    SplitShort(max, []);
    hide SplitStream, Bytes32;
  }

  lemma HoldsAfterOther(max: u32, c: Connection, was: seq<Session>, now: seq<Session>, k: nat, repr: set<object>)
    requires Holds(max, c, was, repr) && c.session != k
    requires k < |was| && |now| == |was| && now == was[k := now[k]]
    ensures Holds(max, c, now, repr)
  {
    hide SplitStream, Bytes32;
  }

  class TcpListeningReceiveSocket {
    const maxFrameSize: u32
    var connections: map<int, Connection>

    /** How many connections have been accepted. */
    var accepted: nat

    /** The calls of the listener so far. */
    var calls: seq<Call>

    /** Every connection ever accepted. */
    ghost var sessions: seq<Session>

    /** The deframers of the connections, and their header buffers. */
    ghost var Repr: set<object>

    ghost function View(): Server
      reads this
    {
      Server(Owners(connections), sessions)
    }

    ghost predicate Valid()
      reads this, Repr
    {
      && this !in Repr
      && accepted == |sessions|
      && (forall fd :: fd in connections ==>
            && connections[fd].deframer in Repr
            && connections[fd].deframer.header in Repr
            && Holds(maxFrameSize, connections[fd], sessions, Repr))
      && Apart(connections)
      && (forall i: nat :: SessionKept(maxFrameSize, sessions, calls, i))
      && CallsKnown(calls, sessions)
    }

    constructor (maxFrameSize: u32)
      ensures Valid() && connections == map[] && calls == [] && sessions == [] && Repr == {}
      ensures this.maxFrameSize == maxFrameSize
    {
      this.maxFrameSize := maxFrameSize;
      connections, calls, sessions, accepted := map[], [], [], 0;
      Repr := {};
    }

    /** `AcceptConnection`: `emplace` adds a connection with an empty deframer under a new descriptor. */
    method AcceptConnection(fd: int, peer: int)
      requires Valid()
      modifies this
      ensures Valid() && fresh(Repr - old(Repr))
      ensures View() == ServerStep(maxFrameSize, old(View()), Accept(fd, peer)) && calls == old(calls)
    {
      hide SplitStream, PacketsOf, SessionKept, Owners, Bytes32, CallsKnown, Holds, Apart;
      OwnerOf(connections, fd);
      if fd in connections {
        return;
      }
      SplitShort(maxFrameSize, []);
      KeptWhenAccepted(maxFrameSize, sessions, calls, peer);
      var deframer := new OscStreamDeframer(maxFrameSize);
      var c := Connection(accepted, peer, deframer);
      NewHolds(maxFrameSize, c, sessions, Repr);
      OwnersAccepted(connections, fd, c);
      ghost var more, repr := Session(peer, [], true), Repr + {deframer, deframer.header};
      forall other | other in connections
        ensures Holds(maxFrameSize, connections[other], sessions + [more], repr)
        ensures connections[other].session < |sessions|
      {
        HoldsAfterAccept(maxFrameSize, connections[other], sessions, Repr, more, repr);
      }
      ApartAccepted(connections, fd, c);
      connections := connections[fd := c];
      accepted := accepted + 1;
      sessions := sessions + [more];
      Repr := repr;
    }

    /** `ServiceConnection`: one `recv`, deframed and dispatched; closed at the end of stream or an oversized frame. */
    method ServiceConnection(fd: int, received: Received)
      requires Valid()
      modifies this, Repr
      ensures Valid() && Repr == old(Repr)
      ensures View() == ServerStep(maxFrameSize, old(View()), Readable(fd, received))
    {
      hide SplitStream, PacketsOf, SessionKept, Owners, Bytes32, CallsKnown, Holds;
      OwnerOf(connections, fd);
      if fd !in connections {
        return;
      }
      OwnersClosed(connections, fd);
      ghost var k := connections[fd].session;
      HoldsSession(maxFrameSize, connections[fd], sessions, Repr);
      if received.NoMore? {
        ghost var now := sessions[k := sessions[k].(live := false)];
        KeptWhenClosed(maxFrameSize, sessions, now, calls, k);
        assert sessions[k].received + [] == sessions[k].received;
        forall other | other in connections && other != fd
          ensures Holds(maxFrameSize, connections[other], now, Repr)
        {
          HoldsAfterOther(maxFrameSize, connections[other], sessions, now, k, Repr);
        }
        sessions := now;
        CloseConnection(fd);
        return;
      }
      var ok := Deframe(fd, received.bytes);
      if !ok {
        CloseConnection(fd);
      }
    }

    /** Feed a chunk to the connection's deframer, whose sink calls the listener. */
    method Deframe(fd: int, bytes: seq<byte>) returns (ok: bool)
      requires Valid() && fd in connections
      modifies this`calls, this`sessions, Repr
      ensures var k := connections[fd].session;
              && k < |old(sessions)|
              && var all := old(sessions)[k].received + bytes;
                 && ok == SplitStream(maxFrameSize, all).ok
                 && sessions == old(sessions)[k := Session(old(sessions)[k].peer, all, ok)]
      ensures forall other :: other in connections && (other != fd || ok) ==>
                Holds(maxFrameSize, connections[other], sessions, Repr)
      ensures forall i: nat :: SessionKept(maxFrameSize, sessions, calls, i)
      ensures CallsKnown(calls, sessions)
    {
      hide SplitStream, PacketsOf, SessionKept, Owners, Bytes32, CallsKnown;
      var c := connections[fd];
      ghost var k, was, before := c.session, sessions, calls;
      assert Holds(maxFrameSize, c, sessions, Repr);
      ghost var all := sessions[k].received + bytes;
      SplitAppend(maxFrameSize, sessions[k].received, bytes);
      assert SessionKept(maxFrameSize, was, before, k);
      LiveIsOk(maxFrameSize, was, before, k);
      ghost var now := sessions[k := Session(was[k].peer, all, SplitStream(maxFrameSize, all).ok)];
      forall other | other in connections && other != fd
        ensures Holds(maxFrameSize, connections[other], now, Repr)
      {
        HoldsAfterOther(maxFrameSize, connections[other], was, now, k, Repr);
      }
      var packets;
      ok, packets := c.deframer.Consume(bytes);
      calls := calls + CallsFor(c.session, c.peer, packets);
      sessions := now;
      KeptWhenServed(maxFrameSize, was, sessions, before, k, packets);
    }

    method CloseConnection(fd: int)
      requires fd in connections
      modifies this`connections
      ensures connections == old(connections) - {fd}
    {
      connections := map other | other in connections && other != fd :: connections[other];
    }

    /** Any interleaving of accepts, reads and closes over any connections. */
    method Serve(events: seq<Event>)
      requires Valid()
      modifies this, Repr
      ensures Valid() && fresh(Repr - old(Repr))
      ensures View() == ServerRun(maxFrameSize, old(View()), events)
    {
      hide SplitStream, PacketsOf, SessionKept, ServerStep, CallsKnown, Holds, Apart;
      var rest := events;
      while rest != []
        invariant Valid() && fresh(Repr - old(Repr))
        invariant ServerRun(maxFrameSize, View(), rest) == ServerRun(maxFrameSize, old(View()), events)
        decreases |rest|
      {
        match rest[0] {
          case Accept(fd, peer) => AcceptConnection(fd, peer);
          case Readable(fd, received) => ServiceConnection(fd, received);
        }
        rest := rest[1..];
      }
    }
  }

  /** An open connection stands for a live session, and keeps pending what that session's stream leaves over. */
  ghost predicate Represents(max: nat, c: Kept, sessions: seq<Session>) {
    && c.session < |sessions|
    && sessions[c.session].live
    && c.peer == sessions[c.session].peer
    && c.pending == SplitStream(max, sessions[c.session].received).rest
  }

  /** Every call was made for a session that exists, and with that session's peer. */
  predicate CallsKnown(calls: seq<Call>, sessions: seq<Session>) {
    forall i :: 0 <= i < |calls| ==>
      calls[i].session < |sessions| && calls[i].peer == sessions[calls[i].session].peer
  }

  lemma KeptWhenAccepted(max: nat, was: seq<Session>, calls: seq<Call>, peer: int)
    requires forall i: nat :: SessionKept(max, was, calls, i)
    requires CallsKnown(calls, was)
    ensures forall i: nat :: SessionKept(max, was + [Session(peer, [], true)], calls, i)
    ensures CallsKnown(calls, was + [Session(peer, [], true)])
  {
    hide SplitStream, PacketsOf;
    SplitShort(max, []);
    assert CallsKnown(calls, was);
    NoCallsYet(calls, |was|);
    forall i: nat ensures SessionKept(max, was + [Session(peer, [], true)], calls, i) {
      assert SessionKept(max, was, calls, i);
    }
  }

  lemma {:induction false} NoCallsYet(calls: seq<Call>, session: nat)
    requires forall i :: 0 <= i < |calls| ==> calls[i].session < session
    ensures PacketsOf(calls, session) == []
    decreases |calls|
  {
    if calls != [] {
      NoCallsYet(calls[..|calls| - 1], session);
    }
  }

  lemma LiveIsOk(max: nat, sessions: seq<Session>, calls: seq<Call>, k: nat)
    requires SessionKept(max, sessions, calls, k) && k < |sessions| && sessions[k].live
    ensures SplitStream(max, sessions[k].received).ok
    ensures PacketsOf(calls, k) == SplitStream(max, sessions[k].received).packets
  {
  }

  lemma KeptWhenClosed(max: nat, was: seq<Session>, now: seq<Session>, calls: seq<Call>, k: nat)
    requires k < |was| && now == was[k := was[k].(live := false)]
    requires forall i: nat :: SessionKept(max, was, calls, i)
    ensures forall i: nat :: SessionKept(max, now, calls, i)
    ensures CallsKnown(calls, was) ==> CallsKnown(calls, now)
  {
    hide SplitStream, PacketsOf;
    forall i: nat ensures SessionKept(max, now, calls, i) {
      assert SessionKept(max, was, calls, i);
    }
  }

  /** Serving one session changes nothing for the others. */
  lemma KeptWhenServed(max: nat, was: seq<Session>, now: seq<Session>, calls: seq<Call>, k: nat,
                       packets: seq<seq<byte>>)
    requires k < |was| && |now| == |was| && now == was[k := now[k]] && now[k].peer == was[k].peer
    requires forall i: nat :: SessionKept(max, was, calls, i)
    requires SplitStream(max, now[k].received).packets == SplitStream(max, was[k].received).packets + packets
    requires now[k].live ==> SplitStream(max, now[k].received).ok
    ensures forall i: nat :: SessionKept(max, now, calls + CallsFor(k, was[k].peer, packets), i)
    ensures CallsKnown(calls, was) ==> CallsKnown(calls + CallsFor(k, was[k].peer, packets), now)
  {
    hide SplitStream, PacketsOf;
    forall i: nat ensures SessionKept(max, now, calls + CallsFor(k, was[k].peer, packets), i) {
      assert SessionKept(max, was, calls, i);
      PacketsOfAppend(calls, k, was[k].peer, packets, i);
    }
  }

  // ----- end to end

  /** How many of the frames, from the first on, are complete within the first `n` bytes of the stream. */
  function CompleteFrames(packets: seq<seq<byte>>, n: nat): (k: nat)
    ensures k <= |packets|
  {
    if packets == [] || 4 + |packets[0]| > n then 0
    else 1 + CompleteFrames(packets[1..], n - 4 - |packets[0]|)
  }

  /** A prefix of a stream of frames starts with (part of) the first frame and goes on with a prefix of the rest. */
  lemma PrefixHead(packets: seq<seq<byte>>, s: seq<byte>)
    requires packets != [] && |packets[0]| < 0x1_0000_0000
    requires Prefix(s, FrameAll(packets)) && |s| >= 4
    ensures var end := 4 + |packets[0]|;
            && Load32(s, 0) == |packets[0]|
            && (|s| >= end ==> s[4..end] == packets[0] && Prefix(s[end..], FrameAll(packets[1..])))
  {
    hide Bytes32, Load32;
    var p, tail, t := packets[0], FrameAll(packets[1..]), FrameAll(packets);
    assert t == Bytes32(|p|) + (p + tail);
    FrameHeader(|p|, p + tail);
    assert s[0..4] == t[..|s|][0..4] == t[0..4];
    LoadSlice32(s, 0, t, 0);
    if |s| >= 4 + |p| {
      var end := 4 + |p|;
      assert s[4..end] == t[..|s|][4..end] == t[4..][..|p|] == p;
      assert t[end..] == t[4..][|p|..] == tail;
      assert s[end..] == t[..|s|][end..] == t[end..][..|s| - end];
    }
  }

  /** Of a prefix of a stream of frames within the cap, exactly the complete frames come out. */
  lemma {:induction false} PrefixSplits(max: u32, packets: seq<seq<byte>>, s: seq<byte>)
    requires AllWithin(max, packets) && Prefix(s, FrameAll(packets))
    ensures SplitStream(max, s).ok
    ensures SplitStream(max, s).packets == packets[..CompleteFrames(packets, |s|)]
    decreases |packets|
  {
    hide SplitStream, Load32, FrameAll;
    SplitCases(max, s);
    if packets == [] {
      NoFrames();
      SplitShort(max, s);
    } else if |s| >= 4 {
      var end := 4 + |packets[0]|;
      PrefixHead(packets, s);
      if |s| >= end {
        PrefixSplits(max, packets[1..], s[end..]);
      }
    }
  }

  lemma NoFrames()
    ensures FrameAll([]) == []
  {
  }

  lemma {:induction false} AllComplete(packets: seq<seq<byte>>)
    ensures CompleteFrames(packets, |FrameAll(packets)|) == |packets|
    decreases |packets|
  {
    hide Bytes32;
    if packets != [] {
      AllComplete(packets[1..]);
    }
  }

  /**
   End to end: if a session has received some prefix of what its peer put on the wire, and the peer sent
   packets within the cap, then the listener was called for it with exactly the packets whose frames have
   fully arrived, in order, whatever the other connections did. If all has arrived, with all of them.
   */
  lemma DeliveredInOrder(server: TcpListeningReceiveSocket, i: nat, packets: seq<seq<byte>>)
    requires server.Valid() && i < |server.sessions|
    requires AllWithin(server.maxFrameSize, packets)
    requires Prefix(server.sessions[i].received, FrameAll(packets))
    ensures var received := server.sessions[i].received;
            && PacketsOf(server.calls, i) == packets[..CompleteFrames(packets, |received|)]
            && (received == FrameAll(packets) ==> PacketsOf(server.calls, i) == packets)
  {
    hide SplitStream, PacketsOf, CompleteFrames, FrameAll, AllWithin;
    assert SessionKept(server.maxFrameSize, server.sessions, server.calls, i);
    PrefixSplits(server.maxFrameSize, packets, server.sessions[i].received);
    AllComplete(packets);
  }

  /** A peer that announces an oversized frame gets its earlier packets delivered, and is then cut off. */
  lemma OversizedIsCutOff(server: TcpListeningReceiveSocket, i: nat, packets: seq<seq<byte>>, size: u32, tail: seq<byte>)
    requires server.Valid() && i < |server.sessions|
    requires AllWithin(server.maxFrameSize, packets) && size > server.maxFrameSize
    requires server.sessions[i].received == FrameAll(packets) + (Bytes32(size) + tail)
    ensures PacketsOf(server.calls, i) == packets && !server.sessions[i].live
  {
    hide SplitStream, PacketsOf, FrameAll, AllWithin, Bytes32;
    assert SessionKept(server.maxFrameSize, server.sessions, server.calls, i);
    SplitFrames(server.maxFrameSize, packets, Bytes32(size) + tail);
    SplitOversized(server.maxFrameSize, size, tail);
    assert packets + [] == packets;
  }
}
