/**
 What a TCP server's connections are, in terms of the events alone (osctap/ip/posix/TcpSocket.h).

 A session starts where a descriptor is accepted that is not in use. It receives every chunk read from
 that descriptor, and ends with the first read that finds the end of the stream or completes the header
 of an oversized frame; after that the descriptor may come back as a new session.
 */
module TcpSessions {
  import opened Bytes
  import opened TcpTransport
  import StreamFraming

  /** All that was read from a descriptor. */
  function ChunksOf(fd: int, events: seq<Event>): seq<byte> {
    if events == [] then []
    else
      var last := events[|events| - 1];
      ChunksOf(fd, events[..|events| - 1])
      + if last.Readable? && last.descriptor == fd && last.received.Chunk? then last.received.bytes else []
  }

  /** Since the session was accepted just before `events`, the last of them ends it. */
  predicate EndsNow(max: nat, fd: int, events: seq<Event>) {
    && events != []
    && var last := events[|events| - 1];
       && last.Readable? && last.descriptor == fd
       && (last.received.NoMore? || !StreamFraming.SplitStream(max, ChunksOf(fd, events)).ok)
  }

  predicate Over(max: nat, fd: int, events: seq<Event>) {
    exists i :: 0 <= i <= |events| && EndsNow(max, fd, events[..i])
  }

  /** How many of the events the session lives through, the one that ends it included. */
  function Life(max: nat, fd: int, events: seq<Event>): (n: nat)
    ensures n <= |events|
    ensures forall i :: 0 <= i < n ==> !EndsNow(max, fd, events[..i])
    ensures if Over(max, fd, events) then EndsNow(max, fd, events[..n]) else n == |events|
  {
    if events == [] then 0
    else
      var before := events[..|events| - 1];
      var n := Life(max, fd, before);
      assert forall i :: 0 <= i < |events| ==> events[..i] == before[..i];
      assert events[..|events|] == events;
      if Over(max, fd, before) then n else |events|
  }

  /** The session that starts with event `a`, as it stands after all of `events`. */
  function SessionAt(max: nat, events: seq<Event>, a: nat): Session
    requires a < |events| && events[a].Accept?
  {
    var fd, since := events[a].descriptor, events[a + 1..];
    Session(events[a].peer, ChunksOf(fd, since[..Life(max, fd, since)]), !Over(max, fd, since))
  }

  /** One of the sessions that started at `starts` is still using the descriptor. */
  predicate InUse(max: nat, events: seq<Event>, starts: seq<nat>, fd: int) {
    exists k :: 0 <= k < |starts| && starts[k] < |events| && events[starts[k]].Accept?
                && events[starts[k]].descriptor == fd && !Over(max, fd, events[starts[k] + 1..])
  }

  /** Which events start sessions. */
  function StartsOf(max: nat, events: seq<Event>): (starts: seq<nat>)
    ensures forall k :: 0 <= k < |starts| ==> starts[k] < |events| && events[starts[k]].Accept?
    ensures forall j, k :: 0 <= j < k < |starts| ==> starts[j] < starts[k]
  {
    if events == [] then []
    else
      var before, last := events[..|events| - 1], events[|events| - 1];
      var starts := StartsOf(max, before);
      if last.Accept? && !InUse(max, before, starts, last.descriptor) then starts + [|events| - 1] else starts
  }

  /** Exactly the accepted descriptors that are not in use start a session. */
  lemma {:induction false} StartsExactly(max: nat, events: seq<Event>, a: nat)
    ensures a in StartsOf(max, events) <==>
            && a < |events| && events[a].Accept?
            && !InUse(max, events[..a], StartsOf(max, events[..a]), events[a].descriptor)
    decreases |events|
  {
    hide InUse;
    if events != [] {
      var before := events[..|events| - 1];
      StartsExactly(max, before, a);
      if a < |before| {
        assert before[..a] == events[..a];
      }
    }
  }

  // ----- one event more

  lemma ChunksSnoc(fd: int, events: seq<Event>, e: Event)
    ensures ChunksOf(fd, events + [e]) == ChunksOf(fd, events)
            + if e.Readable? && e.descriptor == fd && e.received.Chunk? then e.received.bytes else []
  {
    assert (events + [e])[..|events|] == events;
  }

  lemma OverSnoc(max: nat, fd: int, events: seq<Event>, e: Event)
    ensures Over(max, fd, events + [e]) <==> Over(max, fd, events) || EndsNow(max, fd, events + [e])
  {
    hide EndsNow;
    var more := events + [e];
    forall i | 0 <= i <= |events| ensures more[..i] == events[..i] {
    }
    assert more[..|more|] == more;
    if EndsNow(max, fd, more) {
      assert EndsNow(max, fd, more[..|more|]);
    }
    if i :| 0 <= i <= |events| && EndsNow(max, fd, events[..i]) {
      assert EndsNow(max, fd, more[..i]);
    }
  }

  lemma LifeSnoc(max: nat, fd: int, events: seq<Event>, e: Event)
    ensures Life(max, fd, events + [e]) == if Over(max, fd, events) then Life(max, fd, events) else |events| + 1
  {
    hide Over, EndsNow;
    assert (events + [e])[..|events|] == events;
  }

  /** What one more event makes of a session. */
  function Extended(max: nat, s: Session, fd: int, e: Event): Session {
    if s.live && e.Readable? && e.descriptor == fd then
      var all := s.received + if e.received.Chunk? then e.received.bytes else [];
      Session(s.peer, all, e.received.Chunk? && StreamFraming.SplitStream(max, all).ok)
    else s
  }

  lemma SessionSnoc(max: nat, events: seq<Event>, e: Event, a: nat)
    requires a < |events| && events[a].Accept?
    ensures SessionAt(max, events + [e], a)
            == Extended(max, SessionAt(max, events, a), events[a].descriptor, e)
  {
    hide ChunksOf, Over, Life, StreamFraming.SplitStream;
    var fd, since := events[a].descriptor, events[a + 1..];
    assert (events + [e])[a + 1..] == since + [e];
    ChunksSnoc(fd, since, e);
    OverSnoc(max, fd, since, e);
    LifeSnoc(max, fd, since, e);
    var n := Life(max, fd, since);
    assert (since + [e])[..n] == since[..n];
    if !Over(max, fd, since) {
      assert since[..n] == since && (since + [e])[..|since| + 1] == since + [e];
    }
  }

  lemma NewSession(max: nat, events: seq<Event>, e: Event)
    requires e.Accept?
    ensures SessionAt(max, events + [e], |events|) == Session(e.peer, [], true)
  {
    assert (events + [e])[|events| + 1..] == [];
  }

  lemma StartsSnoc(max: nat, events: seq<Event>, e: Event)
    ensures StartsOf(max, events + [e])
            == StartsOf(max, events)
               + if e.Accept? && !InUse(max, events, StartsOf(max, events), e.descriptor) then [|events|] else []
  {
    hide InUse;
    assert (events + [e])[..|events|] == events;
  }

  // ----- the server has exactly these sessions

  /** The sessions, and which of them each open descriptor stands for. */
  predicate HasSessions(max: nat, events: seq<Event>, s: Server) {
    var starts := StartsOf(max, events);
    && |s.sessions| == |starts|
    && (forall k :: 0 <= k < |starts| ==> s.sessions[k] == SessionAt(max, events, starts[k]))
    && (forall k :: 0 <= k < |starts| && s.sessions[k].live ==>
          var fd := events[starts[k]].descriptor; fd in s.owner && s.owner[fd] == k)
    && (forall fd :: fd in s.owner ==>
          s.owner[fd] < |starts| && s.sessions[s.owner[fd]].live && events[starts[s.owner[fd]]].descriptor == fd)
  }

  /** Open descriptors are those in use. */
  lemma OwnedIsInUse(max: nat, events: seq<Event>, s: Server, fd: int)
    requires HasSessions(max, events, s)
    ensures fd in s.owner <==> InUse(max, events, StartsOf(max, events), fd)
  {
    hide ChunksOf, Over, Life, StartsOf;
    var starts := StartsOf(max, events);
    if fd in s.owner {
      var k := s.owner[fd];
      assert s.sessions[k] == SessionAt(max, events, starts[k]);
    }
    if InUse(max, events, starts, fd) {
      var k :| 0 <= k < |starts| && events[starts[k]].descriptor == fd && !Over(max, fd, events[starts[k] + 1..]);
      assert s.sessions[k] == SessionAt(max, events, starts[k]);
    }
  }

  lemma StepHasSessions(max: nat, events: seq<Event>, s: Server, e: Event)
    requires HasSessions(max, events, s)
    ensures HasSessions(max, events + [e], ServerStep(max, s, e))
  {
    hide ChunksOf, Over, Life, StartsOf, SessionAt, InUse, StreamFraming.SplitStream;
    var starts, more := StartsOf(max, events), events + [e];
    OwnedIsInUse(max, events, s, e.descriptor);
    StartsSnoc(max, events, e);
    forall k | 0 <= k < |starts|
      ensures more[starts[k]] == events[starts[k]]
      ensures SessionAt(max, more, starts[k]) == Extended(max, s.sessions[k], events[starts[k]].descriptor, e)
    {
      SessionSnoc(max, events, e, starts[k]);
    }
    if e.Accept? {
      NewSession(max, events, e);
    }
  }

  /** A new server that lives through `events` has exactly the sessions that they describe. */
  lemma {:induction false} ServesExactly(max: nat, events: seq<Event>)
    ensures HasSessions(max, events, ServerRun(max, Server(map[], []), events))
    decreases |events|
  {
    hide HasSessions, ServerStep;
    if events == [] {
      NoSessions(max);
    } else {
      var before, last := events[..|events| - 1], events[|events| - 1];
      ServesExactly(max, before);
      assert events == before + [last];
      RunSnoc(max, Server(map[], []), before, last);
      StepHasSessions(max, before, ServerRun(max, Server(map[], []), before), last);
    }
  }

  lemma NoSessions(max: nat)
    ensures HasSessions(max, [], Server(map[], []))
  {
  }

  lemma {:induction false} RunSnoc(max: nat, s: Server, events: seq<Event>, e: Event)
    ensures ServerRun(max, s, events + [e]) == ServerStep(max, ServerRun(max, s, events), e)
    decreases |events|
  {
    hide ServerStep;
    if events == [] {
      assert events + [e] == [e] && [e][1..] == [];
    } else {
      assert (events + [e])[1..] == events[1..] + [e];
      RunSnoc(max, ServerStep(max, s, events[0]), events[1..], e);
    }
  }

  /**
   A server from its start: over any events its sessions are those that the events describe, and for each
   the listener has been called with exactly the packets of what the session received.
   */
  method RunServer(maxFrameSize: u32, events: seq<Event>) returns (server: TcpListeningReceiveSocket)
    ensures fresh(server) && server.Valid() && server.maxFrameSize == maxFrameSize
    ensures HasSessions(maxFrameSize, events, server.View())
    ensures var starts := StartsOf(maxFrameSize, events);
            forall k :: 0 <= k < |starts| ==>
              PacketsOf(server.calls, k)
              == StreamFraming.SplitStream(maxFrameSize, SessionAt(maxFrameSize, events, starts[k]).received).packets
  {
    hide HasSessions, SessionAt, PacketsOf, StreamFraming.SplitStream, ServerRun, Holds, CallsKnown, Apart;
    server := new TcpListeningReceiveSocket(maxFrameSize);
    assert server.View() == Server(map[], []);
    server.Serve(events);
    ServesExactly(maxFrameSize, events);
    SessionsReceived(maxFrameSize, events, server.View());
    forall k | 0 <= k < |StartsOf(maxFrameSize, events)|
      ensures PacketsOf(server.calls, k)
              == StreamFraming.SplitStream(maxFrameSize,
                                           SessionAt(maxFrameSize, events, StartsOf(maxFrameSize, events)[k]).received).packets
    {
      assert SessionKept(maxFrameSize, server.sessions, server.calls, k);
    }
  }

  lemma SessionsReceived(max: nat, events: seq<Event>, s: Server)
    requires HasSessions(max, events, s)
    ensures var starts := StartsOf(max, events);
            && |s.sessions| == |starts|
            && forall k :: 0 <= k < |starts| ==> s.sessions[k] == SessionAt(max, events, starts[k])
  {
  }
}
