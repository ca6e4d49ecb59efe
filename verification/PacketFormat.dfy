/**
 Bundles and packets: what reading a packet in full finds, what the non-throwing gate decides, and
 what a listener is given (osctap/osc/OscReceivedElements.h, osctap/osc/OscPacketListener.h).
 */
module PacketFormat {
  import opened Bytes
  import opened Osc
  import opened MessageFormat
  import opened MessageReading

  predicate IsBundleData(data: seq<byte>) {
    |data| > 0 && data[0] == HASH
  }

  /** The elements of a bundle from offset `p` on, or what is wrong with their sizes. */
  function ElementsFrom(b: seq<byte>, p: nat): (r: Result<seq<seq<byte>>, Fault>)
    decreases |b| - p
  {
    if p >= |b| then
      if p != |b| then Err(ContentsDidNotMatchSize) else Ok([])
    else if p + 4 > |b| then Err(TooShortForElementSize)
    else if !Aligned(Load32(b, p)) then Err(ElementSizeNotMultipleOfFour)
    else if Load32(b, p) > |b| - (p + 4) then Err(TooShortForElement)
    else
      var end := p + 4 + Load32(b, p);
      var rest := ElementsFrom(b, end);
      if rest.Err? then rest else Ok([b[p + 4..end]] + rest.value)
  }

  /** What `ReceivedBundle::TryInit` decides: the contents of the elements, or a fault. */
  function CheckBundle(b: seq<byte>): Result<seq<seq<byte>>, Fault> {
    if |b| > MAX_ELEMENT_SIZE then Err(InvalidBundleSize)
    else if |b| < 16 then Err(TooShortForBundle)
    else if !Aligned(|b|) then Err(BundleSizeNotMultipleOfFour)
    else if b[..8] != BUNDLE_NAME then Err(BadBundleAddress)
    else ElementsFrom(b, 16)
  }

  /** Elements one after the other, each behind its size. */
  function Framed(es: seq<seq<byte>>): seq<byte> {
    if es == [] then [] else Bytes32(|es[0]|) + es[0] + Framed(es[1..])
  }

  predicate AllAligned(es: seq<seq<byte>>) {
    forall e :: e in es ==> Aligned(|e|)
  }

  // ----- the element walk partitions the bundle

  lemma SplitElement(b: seq<byte>, p: nat, end: nat)
    requires p + 4 <= end <= |b| && Load32(b, p) == end - p - 4
    ensures b[p..] == Bytes32(end - p - 4) + b[p + 4..end] + b[end..]
  {
    StoreLoaded32(b, p);
    hide Bytes32, Load32;
    assert b[p..] == b[p..p + 4] + b[p + 4..end] + b[end..];
  }

  lemma {:induction false} ElementsPartition(b: seq<byte>, p: nat)
    requires p <= |b| && ElementsFrom(b, p).Ok?
    ensures b[p..] == Framed(ElementsFrom(b, p).value)
    ensures AllAligned(ElementsFrom(b, p).value)
    ensures forall e :: e in ElementsFrom(b, p).value ==> |e| + p + 4 <= |b|
    decreases |b| - p
  {
    hide Bytes32, Load32, Aligned;
    if p < |b| {
      var end := p + 4 + Load32(b, p);
      var rest := ElementsFrom(b, end).value;
      ElementsPartition(b, end);
      SplitElement(b, p, end);
      assert ([b[p + 4..end]] + rest)[1..] == rest;
    }
  }

  lemma FramedSplits(b: seq<byte>, p: nat, es: seq<seq<byte>>)
    requires p <= |b| <= MAX_ELEMENT_SIZE && b[p..] == Framed(es) && es != []
    ensures var end := p + 4 + |es[0]|;
            end <= |b| && Load32(b, p) == |es[0]| && b[p + 4..end] == es[0] && b[end..] == Framed(es[1..])
  {
    hide Bytes32, Load32;
    var n := |es[0]|;
    var end := p + 4 + n;
    assert b[p..] == Bytes32(n) + es[0] + Framed(es[1..]);
    assert b[p..p + 4] == b[p..][..4] == Bytes32(n);
    LoadStored32(b, p, n);
    assert b[p + 4..end] == b[p..][4..4 + n] == es[0];
    assert b[end..] == b[p..][4 + n..] == Framed(es[1..]);
  }

  lemma {:induction false} FramedElements(b: seq<byte>, p: nat, es: seq<seq<byte>>)
    requires p <= |b| <= MAX_ELEMENT_SIZE && b[p..] == Framed(es) && AllAligned(es)
    ensures ElementsFrom(b, p) == Ok(es)
    decreases |es|
  {
    hide Bytes32, Load32, Aligned, Framed;
    if es == [] {
      FramedNothing();
    } else {
      FramedSplits(b, p, es);
      assert es[0] in es && forall e :: e in es[1..] ==> e in es;
      FramedElements(b, p + 4 + |es[0]|, es[1..]);
      assert es == [es[0]] + es[1..];
    }
  }

  lemma FramedNothing()
    ensures Framed([]) == []
  {
  }

  /** A bundle is accepted iff it is a header followed exactly by its framed, aligned elements. */
  lemma BundleIffFramed(b: seq<byte>, es: seq<seq<byte>>)
    ensures CheckBundle(b) == Ok(es) <==>
            && 16 <= |b| <= MAX_ELEMENT_SIZE && Aligned(|b|)
            && b[..8] == BUNDLE_NAME
            && b[16..] == Framed(es) && AllAligned(es)
  {
    hide Framed, AllAligned, Aligned, ElementsFrom;
    if 16 <= |b| <= MAX_ELEMENT_SIZE {
      if ElementsFrom(b, 16).Ok? {
        ElementsPartition(b, 16);
      }
      if b[16..] == Framed(es) && AllAligned(es) {
        FramedElements(b, 16, es);
      }
    }
  }

  /** Alignment makes two of the rejections in `TryInit` unreachable. */
  lemma {:induction false} UnreachableFaults(b: seq<byte>, p: nat)
    requires p <= |b| && Aligned(|b| - p)
    ensures ElementsFrom(b, p) != Err(TooShortForElementSize)
    ensures ElementsFrom(b, p) != Err(ContentsDidNotMatchSize)
    decreases |b| - p
  {
    hide Load32, Aligned;
    if p < |b| {
      AlignedRoom(|b| - p);
      if Aligned(Load32(b, p)) && Load32(b, p) <= |b| - (p + 4) {
        AlignedDifference(|b| - p - 4, Load32(b, p));
        UnreachableFaults(b, p + 4 + Load32(b, p));
      }
    }
  }

  // ----- reading a packet in full

  /** What the throwing constructors find, read through to the last message. */
  function ReadContents(data: seq<byte>): Result<Packet, Fault>
    decreases |data|, 1, 0
  {
    if IsBundleData(data) then
      match CheckBundle(data)
      case Err(f) => Err(f)
      case Ok(es) =>
        BundleElementsSmaller(data);
        match ReadElements(es, |data|)
        case Err(f) => Err(f)
        case Ok(elements) => Ok(Bundle(Load64(data, 8), elements))
    else ParseMessage(data)
  }

  function ReadElements(es: seq<seq<byte>>, limit: nat): (r: Result<seq<Packet>, Fault>)
    requires forall e :: e in es ==> |e| < limit
    decreases limit, 0, |es|
  {
    if es == [] then Ok([])
    else
      var first := ReadContents(es[0]);
      if first.Err? then Err(first.error)
      else
        var rest := ReadElements(es[1..], limit);
        if rest.Err? then rest else Ok([first.value] + rest.value)
  }

  lemma BundleElementsSmaller(b: seq<byte>)
    requires CheckBundle(b).Ok?
    ensures |b| >= 16 && forall e :: e in CheckBundle(b).value ==> |e| < |b|
  {
    hide Framed, ElementsFrom, Aligned;
    ElementsPartition(b, 16);
  }

  function SizeFault(size: int): Option<Fault> {
    if !(0 <= size <= MAX_ELEMENT_SIZE) then Some(InvalidPacketSize)
    else if size == 0 then Some(ZeroLengthElement)
    else if !Aligned(size) then Some(PacketSizeNotMultipleOfFour)
    else None
  }

  function ReadPacket(data: seq<byte>): Result<Packet, Fault> {
    if SizeFault(|data|).Some? then Err(SizeFault(|data|).value) else ReadContents(data)
  }

  // ----- the gate

  /** What `TryValidatePacket` answers. */
  function Gate(data: seq<byte>, depth: nat): Option<Fault>
    decreases depth, 0
  {
    if SizeFault(|data|).Some? then SizeFault(|data|)
    else if IsBundleData(data) then
      match CheckBundle(data)
      case Err(f) => Some(f)
      case Ok(es) => if depth == 0 then Some(NestedTooDeeply) else GateAll(es, depth - 1)
    else match Check(data)
      case Err(f) => Some(f)
      case Ok(_) => None
  }

  function GateAll(es: seq<seq<byte>>, depth: nat): Option<Fault>
    decreases depth, 1, |es|
  {
    if es == [] then None
    else if Gate(es[0], depth).Some? then Gate(es[0], depth)
    else GateAll(es[1..], depth)
  }

  /** The size check adds nothing to reading the contents of a bundle's element. */
  lemma ReadableHasGoodSize(data: seq<byte>)
    requires ReadContents(data).Ok?
    ensures SizeFault(|data|) == None
  {
    hide ReadElements, CheckBody, Str4End, ElementsFrom, Aligned;
  }

  /** The gate accepts exactly the packets that read in full and nest no deeper than the bound. */
  lemma {:induction false} GateIffReadable(data: seq<byte>, depth: nat)
    ensures Gate(data, depth) == None <==> ReadPacket(data).Ok? && Depth(ReadPacket(data).value) <= depth
    decreases depth, 0
  {
    hide Check, CheckBundle, ReadElements, GateAll, MaxDepth;
    if SizeFault(|data|) == None && IsBundleData(data) && CheckBundle(data).Ok? {
      BundleElementsSmaller(data);
      if depth > 0 {
        GateAllIffReadable(CheckBundle(data).value, |data|, depth - 1);
      }
    }
  }

  lemma {:induction false} GateAllIffReadable(es: seq<seq<byte>>, limit: nat, depth: nat)
    requires forall e :: e in es ==> |e| < limit
    ensures GateAll(es, depth) == None <==>
            ReadElements(es, limit).Ok? && MaxDepth(ReadElements(es, limit).value) <= depth
    decreases depth, 1, |es|
  {
    hide Gate, ReadContents, Depth, SizeFault;
    if es != [] {
      GateIffReadable(es[0], depth);
      if ReadContents(es[0]).Ok? {
        ReadableHasGoodSize(es[0]);
      }
      GateAllIffReadable(es[1..], limit, depth);
      if ReadElements(es, limit).Ok? {
        assert ReadElements(es, limit).value[1..] == ReadElements(es[1..], limit).value;
      }
    }
  }

  // ----- the listener

  /** What comes out of a listener as an exception: a constructor's, or one of the application's own. */
  datatype Thrown = Malformed(fault: Fault) | ByListener

  /** The messages handed over before the packet is done with, or before something throws. */
  datatype Delivery = Delivery(messages: seq<Packet>, thrown: Option<Thrown>)

  /** `levels` more levels of bundles are processed; deeper ones are constructed, then ignored. */
  function DispatchContents(data: seq<byte>, levels: nat): Delivery
    decreases levels, 0, 0
  {
    if IsBundleData(data) then
      match CheckBundle(data)
      case Err(f) => Delivery([], Some(Malformed(f)))
      case Ok(es) => if levels == 0 then Delivery([], None) else DispatchElements(es, levels - 1)
    else
      match ParseMessage(data)
      case Err(f) => Delivery([], Some(Malformed(f)))
      case Ok(message) => Delivery([message], None)
  }

  function DispatchElements(es: seq<seq<byte>>, levels: nat): Delivery
    decreases levels, 1, |es|
  {
    if es == [] then Delivery([], None)
    else
      var first := DispatchContents(es[0], levels);
      if first.thrown.Some? then first
      else
        var rest := DispatchElements(es[1..], levels);
        Delivery(first.messages + rest.messages, rest.thrown)
  }

  function Dispatch(data: seq<byte>, levels: nat): Delivery {
    if SizeFault(|data|).Some? then Delivery([], Some(Malformed(SizeFault(|data|).value)))
    else DispatchContents(data, levels)
  }

  // ----- a listener whose ProcessMessage may throw

  /** `d` up to the first call of `ProcessMessage` that throws; `n` calls were made before. */
  function Cut(d: Delivery, n: nat, fails: nat -> bool): Delivery
    decreases |d.messages|
  {
    if d.messages == [] then d
    else if fails(n) then Delivery([d.messages[0]], Some(ByListener))
    else Prepend([d.messages[0]], Cut(Delivery(d.messages[1..], d.thrown), n + 1, fails))
  }

  /** First `messages`, then what `d` says. */
  function Prepend(messages: seq<Packet>, d: Delivery): Delivery {
    Delivery(messages + d.messages, d.thrown)
  }

  /** The calls made are those up to and including the first that throws, if there is one. */
  lemma {:induction false} CutAtFirst(d: Delivery, n: nat, fails: nat -> bool, k: nat)
    requires n <= k <= n + |d.messages| && forall i :: n <= i < k ==> !fails(i)
    ensures k == n + |d.messages| ==> Cut(d, n, fails) == d
    ensures k < n + |d.messages| && fails(k) ==>
              Cut(d, n, fails) == Delivery(d.messages[..k - n + 1], Some(ByListener))
    decreases |d.messages|
  {
    if d.messages != [] {
      var first, rest := d.messages[0], d.messages[1..];
      assert d.messages == [first] + rest;
      if k > n {
        CutAtFirst(Delivery(rest, d.thrown), n + 1, fails, k);
        assert k < n + |d.messages| ==> d.messages[..k - n + 1] == [first] + rest[..k - n];
      } else {
        assert d.messages[..1] == [first];
      }
    }
  }

  lemma {:induction false} CutAppend(messages: seq<Packet>, d: Delivery, n: nat, fails: nat -> bool)
    ensures var first := Cut(Delivery(messages, None), n, fails);
            Cut(Prepend(messages, d), n, fails)
            == if first.thrown.Some? then first else Prepend(messages, Cut(d, n + |messages|, fails))
    decreases |messages|
  {
    if messages == [] {
      assert messages + d.messages == d.messages;
    } else {
      var rest := messages[1..];
      assert (messages + d.messages)[1..] == rest + d.messages;
      CutAppend(rest, d, n + 1, fails);
      assert messages == [messages[0]] + rest;
      PrependTwice([messages[0]], rest, Cut(d, n + |messages|, fails));
    }
  }

  lemma PrependTwice(a: seq<Packet>, b: seq<Packet>, d: Delivery)
    ensures Prepend(a, Prepend(b, d)) == Prepend(a + b, d)
  {
    assert a + (b + d.messages) == a + b + d.messages;
  }

  lemma {:induction false} CutThrows(d: Delivery, n: nat, fails: nat -> bool)
    ensures d.thrown.Some? ==> Cut(d, n, fails).thrown.Some?
    ensures Cut(d, n, fails).thrown.None? ==> Cut(d, n, fails) == d
    decreases |d.messages|
  {
    if d.messages != [] {
      CutThrows(Delivery(d.messages[1..], d.thrown), n + 1, fails);
      assert d.messages == [d.messages[0]] + d.messages[1..];
    }
  }

  /** After `before`, first `d`, and unless something throws, `next`. */
  lemma CutThen(before: seq<Packet>, d: Delivery, next: Delivery, fails: nat -> bool)
    ensures var first := Prepend(before, Cut(d, |before|, fails));
            Prepend(before, Cut(if d.thrown.Some? then d else Prepend(d.messages, next), |before|, fails))
            == if first.thrown.Some? then first
               else Prepend(first.messages, Cut(next, |first.messages|, fails))
  {
    hide Cut;
    CutThrows(d, |before|, fails);
    if d.thrown == None {
      CutAppend(d.messages, next, |before|, fails);
      PrependTwice(before, d.messages, Cut(next, |before| + |d.messages|, fails));
    }
  }

  /** A listener that never throws is given all of `d`. */
  lemma NeverThrows(d: Delivery, fails: nat -> bool)
    requires forall n :: !fails(n)
    ensures Prepend([], Cut(d, 0, fails)) == d
  {
    CutAtFirst(d, 0, fails, |d.messages|);
    assert [] + d.messages == d.messages;
  }

  // ----- what is delivered

  /** The messages at most `levels` bundles deep, in depth-first order. */
  function Reachable(p: Packet, levels: nat): seq<Packet>
    decreases p, 1
  {
    match p
    case Message(_, _) => [p]
    case Bundle(_, elements) => if levels == 0 then [] else ReachableIn(elements, levels - 1)
  }

  function ReachableIn(es: seq<Packet>, levels: nat): seq<Packet>
    decreases es, 0
  {
    if es == [] then [] else Reachable(es[0], levels) + ReachableIn(es[1..], levels)
  }

  /** From a packet that reads in full, a listener gets exactly the messages within its limit, and nothing throws. */
  lemma {:induction false} DispatchReadable(data: seq<byte>, levels: nat)
    requires ReadContents(data).Ok?
    ensures DispatchContents(data, levels) == Delivery(Reachable(ReadContents(data).value, levels), None)
    decreases levels, 0, 0
  {
    hide CheckBundle, ParseMessage, ReadElements, DispatchElements, ReachableIn;
    if IsBundleData(data) {
      BundleElementsSmaller(data);
      if levels > 0 {
        DispatchReadableElements(CheckBundle(data).value, |data|, levels - 1);
      }
    } else {
      MessageIsMessage(data);
    }
  }

  lemma MessageIsMessage(data: seq<byte>)
    ensures ParseMessage(data).Ok? ==> ParseMessage(data).value.Message?
  {
  }

  lemma {:induction false} DispatchReadableElements(es: seq<seq<byte>>, limit: nat, levels: nat)
    requires forall e :: e in es ==> |e| < limit
    requires ReadElements(es, limit).Ok?
    ensures DispatchElements(es, levels) == Delivery(ReachableIn(ReadElements(es, limit).value, levels), None)
    decreases levels, 1, |es|
  {
    hide ReadContents, DispatchContents, Reachable;
    if es != [] {
      DispatchReadable(es[0], levels);
      DispatchReadableElements(es[1..], limit, levels);
      assert ReadElements(es, limit).value[1..] == ReadElements(es[1..], limit).value;
    }
  }

  lemma {:induction false} AllReachable(p: Packet, levels: nat)
    requires Depth(p) <= levels
    ensures Reachable(p, levels) == Messages(p)
    decreases p, 1
  {
    hide MaxDepth;
    match p
    case Message(_, _) =>
    case Bundle(_, elements) => AllReachableIn(elements, levels - 1);
  }

  lemma {:induction false} AllReachableIn(es: seq<Packet>, levels: nat)
    requires MaxDepth(es) <= levels
    ensures ReachableIn(es, levels) == MessagesOf(es)
    decreases es, 0
  {
    hide Depth, Reachable, Messages;
    if es != [] {
      AllReachable(es[0], levels);
      AllReachableIn(es[1..], levels);
    }
  }

  /** Whatever passes the gate at some depth is delivered whole by every listener with that limit or more. */
  lemma GatedIsDelivered(data: seq<byte>, depth: nat, levels: nat)
    requires Gate(data, depth) == None && depth <= levels
    ensures ReadPacket(data).Ok?
    ensures Dispatch(data, levels) == Delivery(Messages(ReadPacket(data).value), None)
  {
    hide Gate, ReadContents, DispatchContents, Depth, Messages, Reachable;
    GateIffReadable(data, depth);
    DispatchReadable(data, levels);
    AllReachable(ReadPacket(data).value, levels);
  }
}
