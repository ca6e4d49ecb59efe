/**
 What a listener gets from any packet, malformed ones included (osctap/osc/OscPacketListener.h).

 `Found` is everything that would be constructed from a packet if nothing threw; what is delivered is
 its part before the first fault.
 */
module Deliveries {
  import opened Bytes
  import opened Osc
  import opened MessageFormat
  import opened MessageReading
  import opened PacketFormat

  // ----- nothing throws

  /** A bundle header, followed exactly by these elements behind their sizes. */
  predicate IsBundleOf(b: seq<byte>, es: seq<seq<byte>>) {
    && 16 <= |b| <= MAX_ELEMENT_SIZE && Aligned(|b|)
    && b[..8] == BUNDLE_NAME
    && b[16..] == Framed(es) && AllAligned(es)
  }

  /** Every bundle and every message is well formed, down to `levels` bundles deep. */
  ghost predicate WellFormed(data: seq<byte>, levels: nat)
    decreases levels
  {
    if IsBundleData(data) then
      exists es :: IsBundleOf(data, es) && (levels > 0 ==> forall e :: e in es ==> WellFormed(e, levels - 1))
    else IsMessage(data)
  }

  lemma {:induction false} ContentsThrowNothingIff(data: seq<byte>, levels: nat)
    ensures DispatchContents(data, levels).thrown == None <==> WellFormed(data, levels)
    decreases levels, 0, 0
  {
    hide Check, CheckBundle, IsMessage, IsBundleOf, DispatchElements, PartsArguments;
    if IsBundleData(data) {
      forall es ensures IsBundleOf(data, es) <==> CheckBundle(data) == Ok(es) {
        BundleIsBundleOf(data, es);
      }
      if CheckBundle(data).Ok? && levels > 0 {
        ElementsThrowNothingIff(CheckBundle(data).value, levels - 1);
      }
    } else {
      CheckIffIsMessage(data);
    }
  }

  lemma BundleIsBundleOf(b: seq<byte>, es: seq<seq<byte>>)
    ensures IsBundleOf(b, es) <==> CheckBundle(b) == Ok(es)
  {
    hide Framed, AllAligned, Aligned, CheckBundle;
    BundleIffFramed(b, es);
  }

  lemma {:induction false} ElementsThrowNothingIff(es: seq<seq<byte>>, levels: nat)
    ensures DispatchElements(es, levels).thrown == None <==> forall e :: e in es ==> WellFormed(e, levels)
    decreases levels, 1, |es|
  {
    hide DispatchContents, WellFormed;
    if es != [] {
      ContentsThrowNothingIff(es[0], levels);
      ElementsThrowNothingIff(es[1..], levels);
      assert es == [es[0]] + es[1..];
    }
  }

  /** For any bytes and any limit: nothing throws iff all that is constructed is well formed. */
  lemma ThrowsNothingIff(data: seq<byte>, levels: nat)
    ensures Dispatch(data, levels).thrown == None <==>
            0 < |data| <= MAX_ELEMENT_SIZE && Aligned(|data|) && WellFormed(data, levels)
  {
    hide DispatchContents, WellFormed;
    ContentsThrowNothingIff(data, levels);
  }

  /** If the limit is not reached, nothing throws iff the packet reads in full. */
  lemma {:induction false} ContentsThrowNothingIffRead(data: seq<byte>, levels: nat)
    requires levels >= |data|
    ensures DispatchContents(data, levels).thrown == None <==> ReadContents(data).Ok?
    decreases levels, 0, 0
  {
    hide Check, CheckBundle, DispatchElements, ReadElements, PartsArguments;
    if IsBundleData(data) && CheckBundle(data).Ok? {
      BundleElementsSmaller(data);
      ElementsThrowNothingIffRead(CheckBundle(data).value, |data|, levels - 1);
    }
  }

  lemma {:induction false} ElementsThrowNothingIffRead(es: seq<seq<byte>>, limit: nat, levels: nat)
    requires (forall e :: e in es ==> |e| < limit) && limit <= levels + 1
    ensures DispatchElements(es, levels).thrown == None <==> ReadElements(es, limit).Ok?
    decreases levels, 1, |es|
  {
    hide DispatchContents, ReadContents;
    if es != [] {
      ContentsThrowNothingIffRead(es[0], levels);
      ElementsThrowNothingIffRead(es[1..], limit, levels);
    }
  }

  lemma ThrowsNothingIffRead(data: seq<byte>, levels: nat)
    requires levels >= |data|
    ensures Dispatch(data, levels).thrown == None <==> ReadPacket(data).Ok?
  {
    hide DispatchContents, ReadContents;
    ContentsThrowNothingIffRead(data, levels);
  }

  // ----- what came before a throw, and what was thrown

  /** All that would be constructed, in order, down to `levels` bundles deep: messages and faults. */
  function Found(data: seq<byte>, levels: nat): seq<Result<Packet, Fault>>
    decreases levels, 0, 0
  {
    if IsBundleData(data) then
      match CheckBundle(data)
      case Err(f) => [Err(f)]
      case Ok(es) => if levels == 0 then [] else FoundIn(es, levels - 1)
    else [ParseMessage(data)]
  }

  function FoundIn(es: seq<seq<byte>>, levels: nat): seq<Result<Packet, Fault>>
    decreases levels, 1, |es|
  {
    if es == [] then [] else Found(es[0], levels) + FoundIn(es[1..], levels)
  }

  function MessagesIn(found: seq<Result<Packet, Fault>>): seq<Packet>
    requires forall i :: 0 <= i < |found| ==> found[i].Ok?
  {
    seq(|found|, i requires 0 <= i < |found| => found[i].value)
  }

  /** `d` is what comes before the first fault, and that fault. */
  predicate UpToFirstFault(found: seq<Result<Packet, Fault>>, d: Delivery) {
    exists k :: 0 <= k <= |found| && UpToFault(found, d, k)
  }

  predicate UpToFault(found: seq<Result<Packet, Fault>>, d: Delivery, k: nat)
    requires k <= |found|
  {
    && (forall i :: 0 <= i < k ==> found[i].Ok?)
    && (k < |found| ==> found[k].Err?)
    && d == Delivery(MessagesIn(found[..k]), if k < |found| then Some(Malformed(found[k].error)) else None)
  }

  lemma FaultFirst(found: seq<Result<Packet, Fault>>, more: seq<Result<Packet, Fault>>, d: Delivery)
    requires UpToFirstFault(found, d) && d.thrown.Some?
    ensures UpToFirstFault(found + more, d)
  {
    var k :| 0 <= k <= |found| && UpToFault(found, d, k);
    assert (found + more)[..k] == found[..k];
    assert UpToFault(found + more, d, k);
  }

  lemma FaultLater(found: seq<Result<Packet, Fault>>, more: seq<Result<Packet, Fault>>, d: Delivery, rest: Delivery)
    requires UpToFirstFault(found, d) && d.thrown.None? && UpToFirstFault(more, rest)
    ensures UpToFirstFault(found + more, Prepend(d.messages, rest))
  {
    var k :| 0 <= k <= |more| && UpToFault(more, rest, k);
    var n := |found|;
    assert found[..n] == found;
    assert (found + more)[..n + k] == found + more[..k];
    assert MessagesIn(found + more[..k]) == MessagesIn(found) + MessagesIn(more[..k]);
    assert UpToFault(found + more, Prepend(d.messages, rest), n + k);
  }

  /** The messages delivered are exactly those found before the first fault, and what is thrown is that fault. */
  lemma {:induction false} DeliversUpToFault(data: seq<byte>, levels: nat)
    ensures UpToFirstFault(Found(data, levels), DispatchContents(data, levels))
    decreases levels, 0, 0
  {
    hide Check, CheckBundle, ParseMessage, DispatchElements, FoundIn, UpToFirstFault;
    if IsBundleData(data) && CheckBundle(data).Ok? {
      if levels > 0 {
        DeliversElementsUpToFault(CheckBundle(data).value, levels - 1);
      } else {
        NothingFound();
      }
    } else {
      OneFound(if IsBundleData(data) then Err(CheckBundle(data).error) else ParseMessage(data));
    }
  }

  lemma NothingFound()
    ensures UpToFirstFault([], Delivery([], None))
  {
    assert UpToFault([], Delivery([], None), 0);
  }

  lemma OneFound(r: Result<Packet, Fault>)
    ensures UpToFirstFault([r], match r case Ok(m) => Delivery([m], None) case Err(f) => Delivery([], Some(Malformed(f))))
  {
    match r
    case Ok(m) => assert UpToFault([r], Delivery([m], None), 1);
    case Err(f) => assert UpToFault([r], Delivery([], Some(Malformed(f))), 0);
  }

  lemma {:induction false} DeliversElementsUpToFault(es: seq<seq<byte>>, levels: nat)
    ensures UpToFirstFault(FoundIn(es, levels), DispatchElements(es, levels))
    decreases levels, 1, |es|
  {
    hide DispatchContents, Found, UpToFirstFault;
    if es == [] {
      NothingFound();
    } else {
      var first := DispatchContents(es[0], levels);
      DeliversUpToFault(es[0], levels);
      if first.thrown.Some? {
        FaultFirst(Found(es[0], levels), FoundIn(es[1..], levels), first);
      } else {
        DeliversElementsUpToFault(es[1..], levels);
        FaultLater(Found(es[0], levels), FoundIn(es[1..], levels), first, DispatchElements(es[1..], levels));
      }
    }
  }

  // ----- what the nesting limit leaves out

  /** The messages of a packet, each with the number of bundles around it. */
  function Deep(p: Packet, depth: nat): seq<(Packet, nat)>
    decreases p, 1
  {
    match p
    case Message(_, _) => [(p, depth)]
    case Bundle(_, elements) => DeepIn(elements, depth + 1)
  }

  function DeepIn(es: seq<Packet>, depth: nat): seq<(Packet, nat)>
    decreases es, 0
  {
    if es == [] then [] else Deep(es[0], depth) + DeepIn(es[1..], depth)
  }

  /** Those at most `limit` deep. */
  function AtMost(ms: seq<(Packet, nat)>, limit: nat): seq<Packet> {
    if ms == [] then [] else Kept(ms[0], limit) + AtMost(ms[1..], limit)
  }

  function Kept(m: (Packet, nat), limit: nat): seq<Packet> {
    if m.1 <= limit then [m.0] else []
  }

  lemma {:induction false} AtMostAppend(a: seq<(Packet, nat)>, b: seq<(Packet, nat)>, limit: nat)
    ensures AtMost(a + b, limit) == AtMost(a, limit) + AtMost(b, limit)
    decreases |a|
  {
    hide Kept;
    if a == [] {
      assert a + b == b;
    } else {
      assert (a + b)[1..] == a[1..] + b;
      AtMostAppend(a[1..], b, limit);
      var k := Kept(a[0], limit);
      assert k + (AtMost(a[1..], limit) + AtMost(b, limit)) == k + AtMost(a[1..], limit) + AtMost(b, limit);
    }
  }

  /** A listener with `levels` levels left gets exactly the messages that lie no deeper, in order. */
  lemma {:induction false} ReachableIsAtMost(p: Packet, depth: nat, levels: nat)
    ensures Reachable(p, levels) == AtMost(Deep(p, depth), depth + levels)
    decreases p, 1
  {
    hide DeepIn, ReachableIn;
    match p
    case Message(_, _) =>
    case Bundle(_, elements) =>
      if levels == 0 {
        TooDeepIn(elements, depth + 1, depth);
      } else {
        ReachableInIsAtMost(elements, depth + 1, levels - 1);
      }
  }

  lemma {:induction false} ReachableInIsAtMost(es: seq<Packet>, depth: nat, levels: nat)
    ensures ReachableIn(es, levels) == AtMost(DeepIn(es, depth), depth + levels)
    decreases es, 0
  {
    hide Deep, Reachable, AtMost;
    if es == [] {
      NoneAtMost(depth + levels);
    } else {
      ReachableIsAtMost(es[0], depth, levels);
      ReachableInIsAtMost(es[1..], depth, levels);
      AtMostAppend(Deep(es[0], depth), DeepIn(es[1..], depth), depth + levels);
    }
  }

  lemma NoneAtMost(limit: nat)
    ensures AtMost([], limit) == []
  {
  }

  lemma {:induction false} TooDeep(p: Packet, depth: nat, limit: nat)
    requires depth > limit
    ensures AtMost(Deep(p, depth), limit) == []
    decreases p, 1
  {
    hide DeepIn;
    match p
    case Message(_, _) =>
    case Bundle(_, elements) => TooDeepIn(elements, depth + 1, limit);
  }

  lemma {:induction false} TooDeepIn(es: seq<Packet>, depth: nat, limit: nat)
    requires depth > limit
    ensures AtMost(DeepIn(es, depth), limit) == []
    decreases es, 0
  {
    hide Deep, AtMost;
    if es == [] {
      NoneAtMost(limit);
    } else {
      TooDeep(es[0], depth, limit);
      TooDeepIn(es[1..], depth, limit);
      AtMostAppend(Deep(es[0], depth), DeepIn(es[1..], depth), limit);
    }
  }
}
