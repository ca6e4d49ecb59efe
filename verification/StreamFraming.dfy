/**
 Length-prefixed framing of a byte stream (osctap/osc/OscStreamFraming.h).

 `SplitStream` is the simple specification: cut a whole stream into frames. The deframer, which is
 fed the stream in arbitrary chunks, is proved to agree with it.
 */
module StreamFraming {
  import opened Bytes

  /** The packets of a stream, the bytes after the last whole frame, and false after an oversized header. */
  datatype Split = Split(packets: seq<seq<byte>>, rest: seq<byte>, ok: bool)

  function SplitStream(max: nat, s: seq<byte>): (r: Split)
    ensures r.ok ==> |r.rest| <= |s|
    decreases |s|
  {
    if |s| < 4 then Split([], s, true)
    else if Load32(s, 0) > max then Split([], s, false)
    else if |s| - 4 < Load32(s, 0) then Split([], s, true)
    else
      var end := 4 + Load32(s, 0);
      var after := SplitStream(max, s[end..]);
      Split([s[4..end]] + after.packets, after.rest, after.ok)
  }

  /** A packet on the wire. */
  function Frame(packet: seq<byte>): seq<byte> {
    Bytes32(|packet|) + packet
  }

  function FrameAll(packets: seq<seq<byte>>): seq<byte> {
    if packets == [] then [] else Frame(packets[0]) + FrameAll(packets[1..])
  }

  // ----- properties of the specification

  /** `first`, and then what `next` is split into. */
  function Then(first: seq<seq<byte>>, next: Split): Split {
    Split(first + next.packets, next.rest, next.ok)
  }

  /** The whole first frame of `s`, header included. */
  predicate StartsWithFrame(max: nat, s: seq<byte>) {
    |s| >= 4 && Load32(s, 0) <= max && |s| - 4 >= Load32(s, 0)
  }

  lemma SplitCases(max: nat, s: seq<byte>)
    ensures if StartsWithFrame(max, s)
            then SplitStream(max, s) == Then([s[4..4 + Load32(s, 0)]], SplitStream(max, s[4 + Load32(s, 0)..]))
            else SplitStream(max, s) == Split([], s, |s| < 4 || Load32(s, 0) <= max)
  {
    hide Load32;
  }

  lemma FrameHeader(n: u32, tail: seq<byte>)
    ensures var s := Bytes32(n) + tail;
            |s| == 4 + |tail| && Load32(s, 0) == n && s[4..] == tail
  {
    hide Bytes32, Load32;
    var s := Bytes32(n) + tail;
    assert s[0..4] == Bytes32(n);
    LoadStored32(s, 0, n);
  }

  lemma SplitWhole(max: nat, n: u32, payload: seq<byte>, tail: seq<byte>)
    requires |payload| == n <= max
    ensures SplitStream(max, Bytes32(n) + payload + tail) == Then([payload], SplitStream(max, tail))
  {
    hide Bytes32, Load32, SplitStream;
    var s := Bytes32(n) + payload + tail;
    assert s == Bytes32(n) + (payload + tail);
    FrameHeader(n, payload + tail);
    SplitCases(max, s);
    assert s[4..4 + n] == s[4..][..n] == payload;
    assert s[4 + n..] == s[4..][n..] == tail;
  }

  lemma SplitPartial(max: nat, n: u32, payload: seq<byte>)
    requires |payload| < n <= max
    ensures SplitStream(max, Bytes32(n) + payload) == Split([], Bytes32(n) + payload, true)
  {
    hide Bytes32, Load32, SplitStream;
    FrameHeader(n, payload);
    SplitCases(max, Bytes32(n) + payload);
  }

  lemma SplitOversized(max: nat, n: u32, tail: seq<byte>)
    requires n > max
    ensures SplitStream(max, Bytes32(n) + tail) == Split([], Bytes32(n) + tail, false)
  {
    hide Bytes32, Load32, SplitStream;
    FrameHeader(n, tail);
    SplitCases(max, Bytes32(n) + tail);
  }

  lemma SplitShort(max: nat, s: seq<byte>)
    requires |s| < 4
    ensures SplitStream(max, s) == Split([], s, true)
  {
  }

  lemma HeadersAgree(a: seq<byte>, b: seq<byte>)
    requires |a| >= 4
    ensures Load32(a + b, 0) == Load32(a, 0)
  {
    hide Load32;
    assert (a + b)[0..4] == a[0..4];
    LoadSlice32(a + b, 0, a, 0);
  }

  /** Splitting in two goes is splitting at once: only the rest of the first part is carried over. */
  lemma {:induction false} SplitAppend(max: nat, a: seq<byte>, b: seq<byte>)
    ensures var first := SplitStream(max, a);
            if first.ok then SplitStream(max, a + b) == Then(first.packets, SplitStream(max, first.rest + b))
            else !SplitStream(max, a + b).ok && SplitStream(max, a + b).packets == first.packets
    decreases |a|
  {
    hide Load32, SplitStream;
    SplitCases(max, a);
    SplitCases(max, a + b);
    if |a| >= 4 {
      HeadersAgree(a, b);
      if StartsWithFrame(max, a) {
        var end := 4 + Load32(a, 0);
        assert (a + b)[4..end] == a[4..end];
        assert (a + b)[end..] == a[end..] + b;
        SplitAppend(max, a[end..], b);
      }
    }
  }

  /** Nothing is lost and nothing is invented. */
  lemma {:induction false} SplitConserves(max: nat, s: seq<byte>)
    ensures s == FrameAll(SplitStream(max, s).packets) + SplitStream(max, s).rest
    decreases |s|
  {
    hide Bytes32, Load32, SplitStream;
    SplitCases(max, s);
    if StartsWithFrame(max, s) {
      var end := 4 + Load32(s, 0);
      var first, after := s[4..end], SplitStream(max, s[end..]);
      SplitConserves(max, s[end..]);
      StoreLoaded32(s, 0);
      FrameAllCons(first, after.packets);
      assert s == s[0..4] + first + s[end..];
    } else {
      assert FrameAll([]) + s == s;
    }
  }

  lemma FrameAllCons(first: seq<byte>, rest: seq<seq<byte>>)
    ensures FrameAll([first] + rest) == Bytes32(|first|) + first + FrameAll(rest)
  {
    hide Bytes32;
    assert ([first] + rest)[1..] == rest;
  }

  predicate AllWithin(max: nat, packets: seq<seq<byte>>) {
    forall i :: 0 <= i < |packets| ==> |packets[i]| <= max
  }

  /** Every packet is within the cap, and so is the frame in progress, which is not complete yet. */
  lemma {:induction false} SplitWithinCap(max: nat, s: seq<byte>)
    ensures AllWithin(max, SplitStream(max, s).packets)
    ensures var r := SplitStream(max, s);
            r.ok ==> |r.rest| < 4 || |r.rest| - 4 < Load32(r.rest, 0) <= max
    ensures var r := SplitStream(max, s);
            !r.ok ==> |r.rest| >= 4 && Load32(r.rest, 0) > max
    decreases |s|
  {
    hide Load32, SplitStream;
    SplitCases(max, s);
    if StartsWithFrame(max, s) {
      SplitWithinCap(max, s[4 + Load32(s, 0)..]);
    }
  }

  /** Each frame takes four bytes at least. */
  lemma {:induction false} PacketsFew(max: nat, s: seq<byte>)
    ensures 4 * |SplitStream(max, s).packets| <= |s|
    decreases |s|
  {
    hide Load32, SplitStream;
    SplitCases(max, s);
    if StartsWithFrame(max, s) {
      PacketsFew(max, s[4 + Load32(s, 0)..]);
    }
  }

  /** What one read can complete: a frame for its first byte, and one for every four bytes after that. */
  lemma PacketsPerRead(max: nat, before: seq<byte>, chunk: seq<byte>)
    requires SplitStream(max, before).ok
    ensures |SplitStream(max, SplitStream(max, before).rest + chunk).packets| <= (|chunk| + 3) / 4
  {
    hide Load32, SplitStream;
    var pending := SplitStream(max, before).rest;
    var s := pending + chunk;
    SplitWithinCap(max, before);
    SplitCases(max, s);
    if StartsWithFrame(max, s) {
      var end := 4 + Load32(s, 0);
      if |pending| >= 4 {
        HeadersAgree(pending, chunk);
      }
      assert end > |pending|;
      PacketsFew(max, s[end..]);
    }
  }

  /** Frames within the cap come out again, one by one. */
  lemma {:induction false} SplitFrames(max: u32, packets: seq<seq<byte>>, tail: seq<byte>)
    requires AllWithin(max, packets)
    ensures SplitStream(max, FrameAll(packets) + tail) == Then(packets, SplitStream(max, tail))
    decreases |packets|
  {
    hide Bytes32, SplitStream;
    if packets == [] {
      assert FrameAll(packets) + tail == tail;
      assert [] + SplitStream(max, tail).packets == SplitStream(max, tail).packets;
    } else {
      var p, rest := packets[0], packets[1..];
      SplitFrames(max, rest, tail);
      SplitWhole(max, |p|, p, FrameAll(rest) + tail);
      assert FrameAll(packets) + tail == Bytes32(|p|) + p + (FrameAll(rest) + tail);
      assert packets == [p] + rest;
      assert [p] + (rest + SplitStream(max, tail).packets) == packets + SplitStream(max, tail).packets;
    }
  }

  /** The header says the payload's size exactly if that fits a 32-bit word. */
  lemma HeaderHoldsSizeIff(packet: seq<byte>, tail: seq<byte>)
    ensures var s := Frame(packet) + tail;
            |s| >= 4 && (Load32(s, 0) == |packet| <==> |packet| < 0x1_0000_0000)
  {
    hide Bytes32, Load32;
    var s := Frame(packet) + tail;
    assert s[0..4] == Bytes32(|packet|);
    LoadStored32(s, 0, |packet|);
  }

  lemma ThenThen(a: seq<seq<byte>>, b: seq<seq<byte>>, next: Split)
    ensures Then(a, Then(b, next)) == Then(a + b, next)
  {
    assert a + (b + next.packets) == a + b + next.packets;
  }

  // ----- the encoder

  /** `FrameOscPacket`: header and payload in one buffer, or 0 if they do not fit. */
  method FrameOscPacket(packet: seq<byte>, out: array<byte>) returns (size: nat)
    requires |packet| < 0x1_0000_0000
    modifies out
    ensures 4 + |packet| > out.Length ==> size == 0 && out[..] == old(out[..])
    ensures 4 + |packet| <= out.Length ==> size == |Frame(packet)| && out[..size] == Frame(packet)
    ensures size <= out.Length && out[size..] == old(out[size..])
  {
    hide Bytes32;
    if |packet| + 4 > out.Length {
      return 0;
    }
    Store32(out, 0, |packet|);
    ghost var stored := out[..];
    forall i | 0 <= i < |packet| {
      out[4 + i] := packet[i];
    }
    size := |packet| + 4;
    assert out[..4] == stored[..4];
    assert out[..size] == stored[..4] + packet;
  }

  // ----- the deframer

  class OscStreamDeframer {
    var buffer: seq<byte>
    const maxFrameSize: u32
    var frameSize: u32
    const header: array<byte>
    var headerFill: nat
    var haveHeader: bool

    constructor (maxFrameSize: u32)
      ensures Valid() && Pending() == [] && this.maxFrameSize == maxFrameSize && fresh(header)
    {
      this.maxFrameSize := maxFrameSize;
      header := new byte[4](_ => 0);
      buffer, frameSize, headerFill, haveHeader := [], 0, 0, false;
    }

    /** Between calls: the reassembly buffer is strictly shorter than the announced frame, itself within the cap. */
    ghost predicate Valid()
      reads this
    {
      && header.Length == 4
      && headerFill < 4
      && (!haveHeader ==> buffer == [])
      && (haveHeader ==> headerFill == 0 && |buffer| < frameSize <= maxFrameSize)
    }

    /** The bytes fed but not yet emitted. */
    ghost function Pending(): seq<byte>
      requires headerFill <= header.Length
      reads this, header
    {
      if haveHeader then Bytes32(frameSize) + buffer else header[..headerFill]
    }

    method Reset()
      requires header.Length == 4
      modifies this
      ensures Valid() && Pending() == []
    {
      buffer, frameSize, headerFill, haveHeader := [], 0, 0, false;
    }

    /**
     Feed `data`. The packets handed to the sink and the verdict are those of the simple splitter on
     the bytes pending so far followed by `data`, and so are the bytes left pending.
     */
    method Consume(data: seq<byte>) returns (ok: bool, packets: seq<seq<byte>>)
      requires Valid()
      modifies this, header
      ensures var r := SplitStream(maxFrameSize, old(Pending()) + data);
              && packets == r.packets
              && ok == r.ok
              && (ok ==> Valid() && Pending() == r.rest)
    {
      hide Bytes32, SplitStream;
      ghost var max, all := maxFrameSize, SplitStream(maxFrameSize, Pending() + data);
      packets := [];
      var p := 0;
      assert data[0..] == data;
      while p < |data|
        invariant 0 <= p <= |data| && Valid()
        invariant all == Then(packets, SplitStream(max, Pending() + data[p..]))
        decreases |data| - p
      {
        ghost var total := Pending() + data[p..];
        if !haveHeader {
          var complete;
          p, complete := ReadHeader(data, p);
          if !complete {
            assert total == Pending();
            SplitShort(max, total);
            return true, packets;
          }
          assert total == Bytes32(frameSize) + data[p..];
          if frameSize > maxFrameSize {
            SplitOversized(max, frameSize, data[p..]);
            return false, packets;
          }
          haveHeader := true;
        }
        assert total == Bytes32(frameSize) + (buffer + data[p..]);
        var packet;
        p, packet := ReadPayload(data, p);
        if packet.Some? {
          assert total == Bytes32(frameSize) + packet.value + data[p..];
          SplitWhole(max, frameSize, packet.value, data[p..]);
          assert Pending() + data[p..] == data[p..];
          ThenThen(packets, [packet.value], SplitStream(max, data[p..]));
          packets := packets + [packet.value];
        } else {
          assert total == Pending() + data[p..];
        }
      }
      assert Pending() + data[p..] == Pending();
      if haveHeader {
        SplitPartial(max, frameSize, buffer);
      } else {
        SplitShort(max, Pending());
      }
      ok := true;
    }

    /** The two header paths: all four bytes here, or collected across calls. */
    method ReadHeader(data: seq<byte>, p: nat) returns (q: nat, complete: bool)
      requires Valid() && !haveHeader && p < |data|
      modifies this`frameSize, this`headerFill, header
      ensures p < q <= |data| && headerFill < 4
      ensures complete ==>
                headerFill == 0 && Bytes32(frameSize) + data[q..] == old(header[..headerFill]) + data[p..]
      ensures !complete ==> q == |data| && header[..headerFill] == old(header[..headerFill]) + data[p..]
    {
      hide Bytes32, Load32;
      q := p;
      if headerFill == 0 && |data| - q >= 4 {
        frameSize := Load32(data, q);
        StoreLoaded32(data, q);
        q := q + 4;
        assert data[p..] == data[p..q] + data[q..];
      } else {
        ghost var seen := header[..headerFill];
        while headerFill < 4 && q < |data|
          invariant p <= q <= |data| && headerFill <= 4
          invariant headerFill == |seen| + q - p
          invariant header[..headerFill] == seen + data[p..q]
          decreases |data| - q
        {
          header[headerFill] := data[q];
          headerFill := headerFill + 1;
          q := q + 1;
        }
        if headerFill < 4 {
          assert data[p..q] == data[p..];
          return q, false;
        }
        frameSize := Load32(header[..], 0);
        StoreLoaded32(header[..], 0);
        headerFill := 0;
        assert header[..][0..4] == header[..4];
        assert data[p..] == data[p..q] + data[q..];
      }
      complete := true;
    }

    /** The two payload paths: dispatched in place, or collected in the reassembly buffer. */
    method ReadPayload(data: seq<byte>, p: nat) returns (q: nat, packet: Option<seq<byte>>)
      requires p <= |data| && haveHeader
      requires |buffer| < frameSize || (buffer == [] && frameSize == 0)
      modifies this`buffer, this`haveHeader
      ensures p <= q <= |data| && (old(frameSize) > 0 && p < |data| ==> p < q)
      ensures packet.Some? ==>
                && !haveHeader && buffer == [] && |packet.value| == frameSize
                && old(buffer) + data[p..] == packet.value + data[q..]
      ensures packet.None? ==>
                haveHeader && q == |data| && buffer == old(buffer) + data[p..] && |buffer| < frameSize
    {
      q := p;
      if buffer == [] && |data| - q >= frameSize {
        packet := Some(data[q..q + frameSize]);
        q := q + frameSize;
        haveHeader := false;
        assert data[p..] == data[p..q] + data[q..];
      } else {
        var still := frameSize - |buffer|;
        var avail := |data| - q;
        var take := if avail < still then avail else still;
        buffer := buffer + data[q..q + take];
        q := q + take;
        assert data[p..] == data[p..q] + data[q..];
        packet := None;
        if |buffer| == frameSize {
          packet := Some(buffer);
          buffer := [];
          haveHeader := false;
        }
      }
    }
  }

  // ----- chunking

  function Concat(chunks: seq<seq<byte>>): seq<byte> {
    if chunks == [] then [] else chunks[0] + Concat(chunks[1..])
  }

  /** Feed the chunks one after the other, stopping at the first false, as every receive loop does. */
  method ConsumeAll(d: OscStreamDeframer, chunks: seq<seq<byte>>) returns (ok: bool, packets: seq<seq<byte>>)
    requires d.Valid()
    modifies d, d.header
    ensures var r := SplitStream(d.maxFrameSize, old(d.Pending()) + Concat(chunks));
            packets == r.packets && ok == r.ok && (ok ==> d.Valid() && d.Pending() == r.rest)
  {
    hide SplitStream, Bytes32;
    ok, packets := true, [];
    var rest := chunks;
    ghost var max, all := d.maxFrameSize, SplitStream(d.maxFrameSize, d.Pending() + Concat(chunks));
    while rest != []
      invariant d.Valid()
      invariant all == Then(packets, SplitStream(max, d.Pending() + Concat(rest)))
      decreases |rest|
    {
      ghost var pending, tail := d.Pending(), Concat(rest[1..]);
      assert pending + Concat(rest) == pending + rest[0] + tail;
      SplitAppend(max, pending + rest[0], tail);
      var more;
      ok, more := d.Consume(rest[0]);
      if !ok {
        packets := packets + more;
        return;
      }
      ThenThen(packets, more, SplitStream(max, d.Pending() + tail));
      packets := packets + more;
      rest := rest[1..];
    }
    assert d.Pending() + Concat(rest) == d.Pending();
    PendingRests(d);
    assert packets + [] == packets;
  }

  lemma PendingRests(d: OscStreamDeframer)
    requires d.Valid()
    ensures SplitStream(d.maxFrameSize, d.Pending()) == Split([], d.Pending(), true)
  {
    hide SplitStream, Bytes32;
    if d.haveHeader {
      SplitPartial(d.maxFrameSize, d.frameSize, d.buffer);
    } else {
      SplitShort(d.maxFrameSize, d.Pending());
    }
  }

  /** Two ways of cutting the same bytes give the same packets, the same verdict and the same rest. */
  lemma ChunkingInvariance(max: nat, chunks: seq<seq<byte>>, chunks': seq<seq<byte>>)
    requires Concat(chunks) == Concat(chunks')
    ensures SplitChunks(max, [], chunks) == SplitChunks(max, [], chunks')
  {
    hide SplitStream;
    ChunksAreWhole(max, [], chunks);
    ChunksAreWhole(max, [], chunks');
    assert [] + Concat(chunks) == Concat(chunks) == [] + Concat(chunks');
  }

  /** What chunk-by-chunk splitting emits, and its verdict; the rest is kept only while all is well. */
  function SplitChunks(max: nat, pending: seq<byte>, chunks: seq<seq<byte>>): (seq<seq<byte>>, Option<seq<byte>>)
    decreases |chunks|
  {
    if chunks == [] then (SplitStream(max, pending).packets, Verdict(SplitStream(max, pending)))
    else
      var first := SplitStream(max, pending + chunks[0]);
      if !first.ok then (first.packets, None)
      else
        var after := SplitChunks(max, first.rest, chunks[1..]);
        (first.packets + after.0, after.1)
  }

  function Verdict(r: Split): Option<seq<byte>> {
    if r.ok then Some(r.rest) else None
  }

  lemma {:induction false} ChunksAreWhole(max: nat, pending: seq<byte>, chunks: seq<seq<byte>>)
    ensures var r := SplitStream(max, pending + Concat(chunks));
            SplitChunks(max, pending, chunks) == (r.packets, Verdict(r))
    decreases |chunks|
  {
    hide SplitStream;
    if chunks == [] {
      assert pending + Concat(chunks) == pending;
    } else {
      assert pending + Concat(chunks) == pending + chunks[0] + Concat(chunks[1..]);
      SplitAppend(max, pending + chunks[0], Concat(chunks[1..]));
      ChunksAreWhole(max, SplitStream(max, pending + chunks[0]).rest, chunks[1..]);
    }
  }
}
